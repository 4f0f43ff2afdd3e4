/**
 The SGL descriptor list of modules/dnvme/cmd.c: scatter entries with bit buckets spliced in at
 their byte offsets, and the count made beforehand of how many descriptors that takes.
 */
module SglDescriptors {
  import opened Wrappers
  import opened PrpList

  datatype Bucket = Bucket(offset: nat, length: nat)

  /** An entry of the driver's list; address 0 marks a bit bucket. */
  datatype Entry = Entry(addr: nat, len: nat)

  ghost predicate Scatter(sg: seq<Chunk>) {
    forall i :: 0 <= i < |sg| ==> sg[i].addr > 0 && sg[i].len > 0
  }

  ghost predicate Sorted(bs: seq<Bucket>) {
    forall i, j :: 0 <= i < j < |bs| ==> bs[i].offset <= bs[j].offset
  }

  // ----- meaning

  /** What a reader of the list does, step by step: touch a byte, or skip some. */
  datatype Event = Byte(addr: nat) | Hole(len: nat)

  ghost function DataEvents(addr: nat, len: nat): (t: seq<Event>)
    ensures |t| == len
  {
    seq(len, (i: nat) => Byte(addr + i))
  }

  ghost function Events(e: Entry): seq<Event> {
    if e.addr == 0 then [Hole(e.len)] else DataEvents(e.addr, e.len)
  }

  ghost function Trace(list: seq<Entry>): seq<Event> {
    if list == [] then [] else Trace(list[..|list| - 1]) + Events(list[|list| - 1])
  }

  /** The reference: at each byte position first the buckets due there, then the byte. */
  ghost function Weave(bytes: seq<nat>, pos: nat, bs: seq<Bucket>): seq<Event>
    decreases |bytes| + |bs|
  {
    if bs != [] && (bs[0].offset <= pos || bytes == []) then [Hole(bs[0].length)] + Weave(bytes, pos, bs[1..])
    else if bytes == [] then []
    else [Byte(bytes[0])] + Weave(bytes[1..], pos + 1, bs)
  }

  ghost function DataOf(t: seq<Event>): seq<nat> {
    if t == [] then [] else (if t[0].Byte? then [t[0].addr] else []) + DataOf(t[1..])
  }

  /** Each hole with the number of data bytes before it, counted from `pos`. */
  ghost function Holes(t: seq<Event>, pos: nat): seq<Bucket> {
    if t == [] then []
    else if t[0].Byte? then Holes(t[1..], pos + 1)
    else [Bucket(pos, t[0].len)] + Holes(t[1..], pos)
  }

  /** Leaving out the holes of the reference leaves every byte once, in order. */
  lemma {:induction false} WeaveKeepsBytes(bytes: seq<nat>, pos: nat, bs: seq<Bucket>)
    ensures DataOf(Weave(bytes, pos, bs)) == bytes
    decreases |bytes| + |bs|
  {
    var w := Weave(bytes, pos, bs);
    if bs != [] && (bs[0].offset <= pos || bytes == []) {
      WeaveKeepsBytes(bytes, pos, bs[1..]);
      assert w[1..] == Weave(bytes, pos, bs[1..]);
    } else if bytes != [] {
      WeaveKeepsBytes(bytes[1..], pos + 1, bs);
      assert w[1..] == Weave(bytes[1..], pos + 1, bs);
    }
  }

  ghost function Due(b: Bucket, pos: nat, end: nat): nat {
    if b.offset < pos then pos else if b.offset > end then end else b.offset
  }

  /** Bucket `i` comes after exactly as many bytes as its offset says, or after all of them. */
  lemma {:induction false} WeavePlacesHoles(bytes: seq<nat>, pos: nat, bs: seq<Bucket>)
    requires Sorted(bs)
    ensures var h := Holes(Weave(bytes, pos, bs), pos);
            |h| == |bs| && forall i :: 0 <= i < |bs| ==> h[i] == Bucket(Due(bs[i], pos, pos + |bytes|), bs[i].length)
    decreases |bytes| + |bs|
  {
    var w := Weave(bytes, pos, bs);
    if bs != [] && (bs[0].offset <= pos || bytes == []) {
      WeavePlacesHoles(bytes, pos, bs[1..]);
      assert w[1..] == Weave(bytes, pos, bs[1..]);
    } else if bytes != [] {
      WeavePlacesHoles(bytes[1..], pos + 1, bs);
      assert w[1..] == Weave(bytes[1..], pos + 1, bs);
      if bs != [] {
        assert forall i :: 0 <= i < |bs| ==> bs[0].offset <= bs[i].offset;
      }
    }
  }

  lemma {:induction false} TracePush(list: seq<Entry>, e: Entry)
    ensures Trace(list + [e]) == Trace(list) + Events(e)
  {
    assert (list + [e])[..|list|] == list;
  }

  /** A run of bytes before the next bucket is due is one data block. */
  lemma {:induction false} WeaveData(addr: nat, d: nat, rest: seq<nat>, pos: nat, bs: seq<Bucket>)
    requires bs != [] ==> bs[0].offset >= pos + d
    ensures Weave(Range(addr, d) + rest, pos, bs) == DataEvents(addr, d) + Weave(rest, pos + d, bs)
    decreases d
  {
    hide Range, DataEvents, Weave;
    RunHead(addr, d);
    if d == 0 {
      assert Range(addr, d) + rest == rest;
      assert [] + Weave(rest, pos, bs) == Weave(rest, pos, bs);
    } else {
      var all := Range(addr, d) + rest;
      assert all[1..] == Range(addr + 1, d - 1) + rest;
      WeaveByte(all, pos, bs);
      WeaveData(addr + 1, d - 1, rest, pos + 1, bs);
      assert [Byte(addr)] + (DataEvents(addr + 1, d - 1) + Weave(rest, pos + d, bs)) == DataEvents(addr, d) + Weave(rest, pos + d, bs);
    }
  }

  lemma {:induction false} WeaveByte(bytes: seq<nat>, pos: nat, bs: seq<Bucket>)
    requires bytes != [] && (bs != [] ==> bs[0].offset > pos)
    ensures Weave(bytes, pos, bs) == [Byte(bytes[0])] + Weave(bytes[1..], pos + 1, bs)
  {
  }

  lemma {:induction false} RunHead(addr: nat, d: nat)
    ensures d == 0 ==> Range(addr, d) == [] && DataEvents(addr, d) == []
    ensures d > 0 ==> Range(addr, d) == [addr] + Range(addr + 1, d - 1)
    ensures d > 0 ==> DataEvents(addr, d) == [Byte(addr)] + DataEvents(addr + 1, d - 1)
  {
  }

  // ----- counting

  /** Does `o` fall on the start or the end of a scatter entry? */
  function AtBoundary(sg: seq<Chunk>, base: nat, o: nat): bool {
    sg != [] && (o == base || o == base + sg[0].len || AtBoundary(sg[1..], base + sg[0].len, o))
  }

  function Cost(sg: seq<Chunk>, b: Bucket): nat {
    if AtBoundary(sg, 0, b.offset) then 1 else 2
  }

  function CostSum(sg: seq<Chunk>, bs: seq<Bucket>): nat {
    if bs == [] then 0 else Cost(sg, bs[0]) + CostSum(sg, bs[1..])
  }

  function Count(sg: seq<Chunk>, bs: seq<Bucket>): nat {
    CostSum(sg, bs) + |sg|
  }

  method CountSglDescNum(sg: seq<Chunk>, bs: seq<Bucket>) returns (num: nat)
    ensures num == Count(sg, bs)
  {
    num := 0;
    var i := 0;
    while i < |bs|
      invariant i <= |bs| && num + CostSum(sg, bs[i..]) == CostSum(sg, bs)
    {
      var offset: nat, at: nat, found := 0, 0, false;
      while at < |sg| && !found
        invariant at <= |sg|
        invariant AtBoundary(sg, 0, bs[i].offset) == (found || AtBoundary(sg[at..], offset, bs[i].offset))
        decreases |sg| - at, !found
      {
        assert sg[at..][1..] == sg[at + 1..];
        if bs[i].offset == offset || bs[i].offset == offset + sg[at].len {
          found := true;
        } else {
          offset := offset + sg[at].len;
          at := at + 1;
        }
      }
      num := num + if found then 1 else 2;
      assert bs[i..][1..] == bs[i + 1..];
      i := i + 1;
    }
    num := num + |sg|;
  }

  // ----- where the fill loop stands

  function Prefix(sg: seq<Chunk>, i: nat): nat
    requires i <= |sg|
  {
    if i == 0 then 0 else Prefix(sg, i - 1) + sg[i - 1].len
  }

  /** The bytes from offset `oft` of entry `i` on. */
  ghost function Left(sg: seq<Chunk>, i: nat, oft: nat): seq<nat>
    requires i < |sg| ==> oft <= sg[i].len
  {
    if i >= |sg| then [] else Range(sg[i].addr + oft, sg[i].len - oft) + Bytes(sg[i + 1..])
  }

  /** Scatter entries that still owe a final data descriptor. */
  ghost function Owing(sg: seq<Chunk>, i: nat, oft: nat): nat {
    if i >= |sg| then 0 else |sg| - i - 1 + if oft < sg[i].len then 1 else 0
  }

  /** Descriptors counted but not emitted: repeats of an offset inside an entry, and buckets past the end. */
  ghost function Slack(sg: seq<Chunk>, last: nat, bs: seq<Bucket>): nat
    decreases |bs|
  {
    if bs == [] then 0
    else
      (if !AtBoundary(sg, 0, bs[0].offset) && (bs[0].offset == last || bs[0].offset > Prefix(sg, |sg|)) then 1 else 0)
      + Slack(sg, bs[0].offset, bs[1..])
  }

  ghost predicate At(sg: seq<Chunk>, bs: seq<Bucket>, list: seq<Entry>, i: nat, oft: nat, bit: nat, last: nat) {
    && i <= |sg| && bit <= |bs| && (if i < |sg| then oft <= sg[i].len else oft == 0)
    && last <= Prefix(sg, i) + oft
    && (bit < |bs| ==> bs[bit].offset >= Prefix(sg, i) + oft)
    && (bit < |bs| && bs[bit].offset == Prefix(sg, i) + oft ==> last == bs[bit].offset && oft > 0)
    && Trace(list) + Weave(Left(sg, i, oft), Prefix(sg, i) + oft, bs[bit..]) == Weave(Bytes(sg), 0, bs)
    && |list| + CostSum(sg, bs[bit..]) + Owing(sg, i, oft) + Slack(sg, 0, bs)
       == Count(sg, bs) + Slack(sg, last, bs[bit..])
  }

  // ----- boundaries

  lemma {:induction false} PrefixTail(sg: seq<Chunk>, i: nat)
    requires 0 < i <= |sg|
    ensures Prefix(sg, i) == sg[0].len + Prefix(sg[1..], i - 1)
  {
    if i > 1 {
      PrefixTail(sg, i - 1);
    }
  }

  lemma {:induction false} PrefixIncreases(sg: seq<Chunk>, i: nat, j: nat)
    requires Scatter(sg) && i < j <= |sg|
    ensures Prefix(sg, i) < Prefix(sg, j)
  {
    if i < j - 1 {
      PrefixIncreases(sg, i, j - 1);
    }
  }

  lemma {:induction false} BoundaryIsPrefix(sg: seq<Chunk>, base: nat, o: nat) returns (i: nat)
    requires AtBoundary(sg, base, o)
    ensures i <= |sg| && o == base + Prefix(sg, i)
  {
    if o == base {
      i := 0;
    } else if o == base + sg[0].len {
      i := 1;
    } else {
      var k := BoundaryIsPrefix(sg[1..], base + sg[0].len, o);
      PrefixTail(sg, k + 1);
      i := k + 1;
    }
  }

  lemma {:induction false} PrefixIsBoundary(sg: seq<Chunk>, base: nat, i: nat)
    requires sg != [] && i <= |sg|
    ensures AtBoundary(sg, base, base + Prefix(sg, i))
  {
    if i > 0 {
      PrefixTail(sg, i);
      if i > 1 {
        PrefixIsBoundary(sg[1..], base + sg[0].len, i - 1);
      }
    }
  }

  lemma {:induction false} InsideIsNotBoundary(sg: seq<Chunk>, i: nat, o: nat)
    requires Scatter(sg) && i < |sg| && Prefix(sg, i) < o < Prefix(sg, i + 1)
    ensures !AtBoundary(sg, 0, o)
  {
    if AtBoundary(sg, 0, o) {
      var k := BoundaryIsPrefix(sg, 0, o);
      if k < i {
        PrefixIncreases(sg, k, i);
      } else if k > i + 1 {
        PrefixIncreases(sg, i + 1, k);
      }
    }
  }

  lemma {:induction false} BoundaryWithin(sg: seq<Chunk>, o: nat)
    requires Scatter(sg) && AtBoundary(sg, 0, o)
    ensures o <= Prefix(sg, |sg|)
  {
    var k := BoundaryIsPrefix(sg, 0, o);
    if k < |sg| {
      PrefixIncreases(sg, k, |sg|);
    }
  }

  lemma {:induction false} WithinTotal(sg: seq<Chunk>, i: nat)
    requires Scatter(sg) && i <= |sg|
    ensures Prefix(sg, i) <= Prefix(sg, |sg|)
  {
    if i < |sg| {
      PrefixIncreases(sg, i, |sg|);
    }
  }

  // ----- the steps of the fill loop

  lemma {:induction false} Unfold(sg: seq<Chunk>, last: nat, bs: seq<Bucket>, bit: nat)
    requires bit < |bs|
    ensures bs[bit..][0] == bs[bit] && bs[bit..][1..] == bs[bit + 1..]
    ensures CostSum(sg, bs[bit..]) == Cost(sg, bs[bit]) + CostSum(sg, bs[bit + 1..])
    ensures Slack(sg, last, bs[bit..]) ==
            (if !AtBoundary(sg, 0, bs[bit].offset) && (bs[bit].offset == last || bs[bit].offset > Prefix(sg, |sg|)) then 1 else 0)
            + Slack(sg, bs[bit].offset, bs[bit + 1..])
  {
  }

  /** A due bucket is a hole in the reference. */
  lemma {:induction false} WeaveHole(bytes: seq<nat>, pos: nat, bs: seq<Bucket>, bit: nat)
    requires bit < |bs| && (bs[bit].offset <= pos || bytes == [])
    ensures Weave(bytes, pos, bs[bit..]) == [Hole(bs[bit].length)] + Weave(bytes, pos, bs[bit + 1..])
  {
    assert bs[bit..][1..] == bs[bit + 1..];
  }

  /** Emitting `d` data bytes of entry `i`, up to but not past the next bucket. */
  lemma {:induction false} EmitData(sg: seq<Chunk>, bs: seq<Bucket>, list: seq<Entry>, i: nat, oft: nat, bit: nat, d: nat)
    requires Scatter(sg) && i < |sg| && bit <= |bs| && oft + d <= sg[i].len
    requires bit < |bs| ==> bs[bit].offset >= Prefix(sg, i) + oft + d
    ensures Trace(list + [Entry(sg[i].addr + oft, d)]) + Weave(Left(sg, i, oft + d), Prefix(sg, i) + oft + d, bs[bit..])
            == Trace(list) + Weave(Left(sg, i, oft), Prefix(sg, i) + oft, bs[bit..])
  {
    hide Weave, Trace, Range, Bytes, DataEvents, Prefix;
    var a, rest := sg[i].addr + oft, sg[i].len - oft - d;
    TracePush(list, Entry(a, d));
    RangeSplit(a, d, rest);
    assert Left(sg, i, oft) == Range(a, d) + Left(sg, i, oft + d);
    WeaveData(a, d, Left(sg, i, oft + d), Prefix(sg, i) + oft, bs[bit..]);
    assert Trace(list) + (DataEvents(a, d) + Weave(Left(sg, i, oft + d), Prefix(sg, i) + oft + d, bs[bit..]))
           == (Trace(list) + DataEvents(a, d)) + Weave(Left(sg, i, oft + d), Prefix(sg, i) + oft + d, bs[bit..]);
  }

  lemma {:induction false} EmitHole(list: seq<Entry>, bytes: seq<nat>, pos: nat, bs: seq<Bucket>, bit: nat)
    requires bit < |bs| && (bs[bit].offset <= pos || bytes == [])
    ensures Trace(list + [Entry(0, bs[bit].length)]) + Weave(bytes, pos, bs[bit + 1..])
            == Trace(list) + Weave(bytes, pos, bs[bit..])
  {
    hide Weave, Trace;
    TracePush(list, Entry(0, bs[bit].length));
    WeaveHole(bytes, pos, bs, bit);
    assert Trace(list) + ([Hole(bs[bit].length)] + Weave(bytes, pos, bs[bit + 1..]))
           == (Trace(list) + [Hole(bs[bit].length)]) + Weave(bytes, pos, bs[bit + 1..]);
  }

  /** A bucket further inside the current entry: a data block up to it, then the bucket. */
  lemma {:induction false} StepInside(sg: seq<Chunk>, bs: seq<Bucket>, list: seq<Entry>, i: nat, oft: nat, bit: nat, last: nat)
    requires Scatter(sg) && Sorted(bs) && At(sg, bs, list, i, oft, bit, last) && i < |sg| && bit < |bs|
    requires Prefix(sg, i) + oft < bs[bit].offset < Prefix(sg, i) + sg[i].len
    ensures var o := bs[bit].offset; var d := o - Prefix(sg, i) - oft;
            At(sg, bs, list + [Entry(sg[i].addr + oft, d)] + [Entry(0, bs[bit].length)], i, oft + d, bit + 1, o)
  {
    hide Trace, Weave, Left, CostSum, Slack, AtBoundary;
    var o := bs[bit].offset;
    var d := o - Prefix(sg, i) - oft;
    EmitData(sg, bs, list, i, oft, bit, d);
    EmitHole(list + [Entry(sg[i].addr + oft, d)], Left(sg, i, oft + d), o, bs, bit);
    Unfold(sg, last, bs, bit);
    InsideIsNotBoundary(sg, i, o);
    WithinTotal(sg, i + 1);
  }

  /** Another bucket at the same place inside the entry: only the bucket. */
  lemma {:induction false} StepInsideAgain(sg: seq<Chunk>, bs: seq<Bucket>, list: seq<Entry>, i: nat, oft: nat, bit: nat, last: nat)
    requires Scatter(sg) && Sorted(bs) && At(sg, bs, list, i, oft, bit, last) && i < |sg| && bit < |bs|
    requires Prefix(sg, i) + oft == bs[bit].offset < Prefix(sg, i) + sg[i].len
    ensures At(sg, bs, list + [Entry(0, bs[bit].length)], i, oft, bit + 1, bs[bit].offset)
  {
    hide Trace, Weave, Left, CostSum, Slack, AtBoundary;
    EmitHole(list, Left(sg, i, oft), bs[bit].offset, bs, bit);
    Unfold(sg, last, bs, bit);
    InsideIsNotBoundary(sg, i, bs[bit].offset);
    WithinTotal(sg, i + 1);
  }

  /** A bucket at the end of the entry: what is left of the entry, then the bucket. */
  lemma {:induction false} StepEnd(sg: seq<Chunk>, bs: seq<Bucket>, list: seq<Entry>, i: nat, oft: nat, bit: nat, last: nat)
    requires Scatter(sg) && Sorted(bs) && At(sg, bs, list, i, oft, bit, last) && i < |sg| && bit < |bs|
    requires Prefix(sg, i) + oft < bs[bit].offset == Prefix(sg, i) + sg[i].len
    ensures At(sg, bs, list + [Entry(sg[i].addr + oft, sg[i].len - oft)] + [Entry(0, bs[bit].length)],
               i, sg[i].len, bit + 1, bs[bit].offset)
  {
    hide Trace, Weave, Left, CostSum, Slack, AtBoundary;
    var o := bs[bit].offset;
    EmitData(sg, bs, list, i, oft, bit, sg[i].len - oft);
    EmitHole(list + [Entry(sg[i].addr + oft, sg[i].len - oft)], Left(sg, i, sg[i].len), o, bs, bit);
    Unfold(sg, last, bs, bit);
    PrefixIsBoundary(sg, 0, i + 1);
  }

  lemma {:induction false} StepEndAgain(sg: seq<Chunk>, bs: seq<Bucket>, list: seq<Entry>, i: nat, oft: nat, bit: nat, last: nat)
    requires Scatter(sg) && Sorted(bs) && At(sg, bs, list, i, oft, bit, last) && i < |sg| && bit < |bs|
    requires oft == sg[i].len && bs[bit].offset == Prefix(sg, i) + sg[i].len
    ensures At(sg, bs, list + [Entry(0, bs[bit].length)], i, oft, bit + 1, bs[bit].offset)
  {
    hide Trace, Weave, Left, CostSum, Slack, AtBoundary;
    EmitHole(list, Left(sg, i, oft), bs[bit].offset, bs, bit);
    Unfold(sg, last, bs, bit);
    PrefixIsBoundary(sg, 0, i + 1);
  }

  /** No more buckets for this entry: what is left of it is one data block. */
  lemma {:induction false} StepFinish(sg: seq<Chunk>, bs: seq<Bucket>, list: seq<Entry>, i: nat, oft: nat, bit: nat, last: nat)
    requires Scatter(sg) && At(sg, bs, list, i, oft, bit, last) && i < |sg| && oft < sg[i].len
    requires bit < |bs| ==> bs[bit].offset > Prefix(sg, i) + sg[i].len
    ensures At(sg, bs, list + [Entry(sg[i].addr + oft, sg[i].len - oft)], i, sg[i].len, bit, last)
  {
    hide Trace, Weave, Left, CostSum, Slack;
    EmitData(sg, bs, list, i, oft, bit, sg[i].len - oft);
  }

  lemma {:induction false} StepNext(sg: seq<Chunk>, bs: seq<Bucket>, list: seq<Entry>, i: nat, bit: nat, last: nat)
    requires Scatter(sg) && i < |sg| && At(sg, bs, list, i, sg[i].len, bit, last)
    requires bit < |bs| ==> bs[bit].offset > Prefix(sg, i) + sg[i].len
    ensures At(sg, bs, list, i + 1, 0, bit, last)
  {
    hide Trace, Weave, CostSum, Slack;
    LeftAcross(sg, i);
  }

  lemma {:induction false} LeftAcross(sg: seq<Chunk>, i: nat)
    requires i < |sg|
    ensures Left(sg, i, sg[i].len) == Left(sg, i + 1, 0)
  {
    if i + 1 < |sg| {
      assert sg[i + 1..][1..] == sg[i + 2..];
    }
  }

  /** Before the first entry: the buckets with offset 0. */
  ghost predicate AtStart(sg: seq<Chunk>, bs: seq<Bucket>, list: seq<Entry>, bit: nat) {
    && bit <= |bs|
    && Trace(list) + Weave(Bytes(sg), 0, bs[bit..]) == Weave(Bytes(sg), 0, bs)
    && |list| + CostSum(sg, bs[bit..]) + |sg| + Slack(sg, 0, bs) == Count(sg, bs) + Slack(sg, 0, bs[bit..])
  }

  lemma {:induction false} StartInit(sg: seq<Chunk>, bs: seq<Bucket>)
    ensures AtStart(sg, bs, [], 0)
  {
    assert bs[0..] == bs;
  }

  lemma {:induction false} StepStart(sg: seq<Chunk>, bs: seq<Bucket>, list: seq<Entry>, bit: nat)
    requires sg != [] && AtStart(sg, bs, list, bit) && bit < |bs| && bs[bit].offset == 0
    ensures AtStart(sg, bs, list + [Entry(0, bs[bit].length)], bit + 1)
  {
    hide Trace, Weave, CostSum, Slack, Bytes;
    EmitHole(list, Bytes(sg), 0, bs, bit);
    Unfold(sg, 0, bs, bit);
  }

  lemma {:induction false} StartDone(sg: seq<Chunk>, bs: seq<Bucket>, list: seq<Entry>, bit: nat)
    requires Scatter(sg) && sg != [] && AtStart(sg, bs, list, bit) && (bit < |bs| ==> bs[bit].offset > 0)
    ensures At(sg, bs, list, 0, 0, bit, 0)
  {
    hide Trace, Weave, CostSum, Slack;
    assert Left(sg, 0, 0) == Bytes(sg);
  }

  /** After the last entry: the buckets whose offset lies past the data. */
  ghost predicate AtEnd(sg: seq<Chunk>, bs: seq<Bucket>, list: seq<Entry>, bit: nat, last: nat) {
    && bit <= |bs|
    && (bit < |bs| ==> bs[bit].offset > Prefix(sg, |sg|))
    && Trace(list) + Weave([], Prefix(sg, |sg|), bs[bit..]) == Weave(Bytes(sg), 0, bs)
    && |list| + CostSum(sg, bs[bit..]) + Slack(sg, 0, bs) == Count(sg, bs) + Slack(sg, last, bs[bit..])
  }

  lemma {:induction false} EndInit(sg: seq<Chunk>, bs: seq<Bucket>, list: seq<Entry>, bit: nat, last: nat)
    requires At(sg, bs, list, |sg|, 0, bit, last)
    ensures AtEnd(sg, bs, list, bit, last)
  {
  }

  lemma {:induction false} StepEndOfData(sg: seq<Chunk>, bs: seq<Bucket>, list: seq<Entry>, bit: nat, last: nat)
    requires Scatter(sg) && Sorted(bs) && AtEnd(sg, bs, list, bit, last) && bit < |bs|
    ensures AtEnd(sg, bs, list + [Entry(0, bs[bit].length)], bit + 1, bs[bit].offset)
  {
    hide Trace, Weave, CostSum, Slack, Bytes, AtBoundary;
    EmitHole(list, [], Prefix(sg, |sg|), bs, bit);
    Unfold(sg, last, bs, bit);
    if AtBoundary(sg, 0, bs[bit].offset) {
      BoundaryWithin(sg, bs[bit].offset);
    }
  }

  /** The buckets for which the number emitted is the number counted. */
  ghost predicate Acceptable(sg: seq<Chunk>, bs: seq<Bucket>) {
    && (forall i :: 0 <= i < |bs| ==> bs[i].offset <= Prefix(sg, |sg|))
    && (forall i, j :: 0 <= i < j < |bs| && bs[i].offset == bs[j].offset ==> AtBoundary(sg, 0, bs[i].offset))
  }

  lemma {:induction false} SlackIsZero(sg: seq<Chunk>, last: nat, bs: seq<Bucket>)
    requires Scatter(sg) && Sorted(bs) && forall i :: 0 <= i < |bs| ==> bs[i].offset >= last
    ensures Slack(sg, last, bs) == 0 <==>
            Acceptable(sg, bs) && (bs != [] && bs[0].offset == last ==> AtBoundary(sg, 0, last))
    decreases |bs|
  {
    hide AtBoundary, Prefix;
    if bs != [] {
      var rest := bs[1..];
      SlackIsZero(sg, bs[0].offset, rest);
      if AtBoundary(sg, 0, bs[0].offset) {
        BoundaryWithin(sg, bs[0].offset);
      }
      if Acceptable(sg, rest) && bs[0].offset <= Prefix(sg, |sg|) && (rest != [] && rest[0].offset == bs[0].offset ==> AtBoundary(sg, 0, bs[0].offset)) {
        forall i, j | 0 <= i < j < |bs| && bs[i].offset == bs[j].offset ensures AtBoundary(sg, 0, bs[i].offset) {
          if i == 0 {
            assert rest[0].offset <= rest[j - 1].offset;
          } else {
            assert rest[i - 1].offset == rest[j - 1].offset;
          }
        }
      }
      if Acceptable(sg, bs) {
        forall i, j | 0 <= i < j < |rest| && rest[i].offset == rest[j].offset ensures AtBoundary(sg, 0, rest[i].offset) {
          assert bs[i + 1].offset == bs[j + 1].offset;
        }
        if rest != [] && rest[0].offset == bs[0].offset {
          assert bs[0].offset == bs[1].offset;
        }
      }
    }
  }

  // ----- what an accepted list means

  /** A reader touches every byte of the buffer once, in order, and finds each bucket after exactly its offset in bytes. */
  ghost predicate Spliced(t: seq<Event>, sg: seq<Chunk>, bs: seq<Bucket>) {
    DataOf(t) == Bytes(sg) && Holes(t, 0) == bs
  }

  lemma {:induction false} BytesLength(sg: seq<Chunk>)
    ensures |Bytes(sg)| == Total(sg)
  {
    if sg != [] {
      BytesLength(sg[1..]);
    }
  }

  lemma {:induction false} PrefixIsTotal(sg: seq<Chunk>, i: nat)
    requires i <= |sg|
    ensures Prefix(sg, i) == Total(sg[..i])
  {
    if i > 0 {
      PrefixIsTotal(sg, i - 1);
      TotalPush(sg[..i - 1], sg[i - 1]);
      assert sg[..i] == sg[..i - 1] + [sg[i - 1]];
    }
  }

  /** For acceptable buckets the reference places every hole at its own offset. */
  lemma {:induction false} WeaveIsSpliced(sg: seq<Chunk>, bs: seq<Bucket>)
    requires Sorted(bs) && Acceptable(sg, bs)
    ensures Spliced(Weave(Bytes(sg), 0, bs), sg, bs)
  {
    hide Weave, Holes, DataOf, Bytes, AtBoundary, Prefix;
    WeaveKeepsBytes(Bytes(sg), 0, bs);
    WeavePlacesHoles(Bytes(sg), 0, bs);
    BytesLength(sg);
    PrefixIsTotal(sg, |sg|);
    assert sg[..|sg|] == sg;
  }

  /** Two places that hold the same bucket are seen in the multiset, and the other way round. */
  lemma {:induction false} Twice(bs: seq<Bucket>, i: nat, j: nat)
    requires i < j < |bs| && bs[i] == bs[j]
    ensures multiset(bs)[bs[i]] >= 2
  {
    assert bs == bs[..i] + [bs[i]] + bs[i + 1..j] + [bs[j]] + bs[j + 1..];
  }

  lemma {:induction false} TwicePlaces(bs: seq<Bucket>, b: Bucket) returns (i: nat, j: nat)
    requires multiset(bs)[b] >= 2
    ensures i < j < |bs| && bs[i] == bs[j] == b
  {
    assert b in multiset(bs);
    i :| 0 <= i < |bs| && bs[i] == b;
    var others := bs[..i] + bs[i + 1..];
    assert bs == bs[..i] + [b] + bs[i + 1..];
    assert multiset(others)[b] >= 1;
    assert b in others;
    var k :| 0 <= k < |others| && others[k] == b;
    if k < i {
      i, j := k, i;
    } else {
      j := k + 1;
    }
  }

  /** Sorting does not decide whether the buckets are acceptable. */
  lemma {:induction false} AcceptablePermutes(sg: seq<Chunk>, a: seq<Bucket>, b: seq<Bucket>)
    requires multiset(a) == multiset(b) && Acceptable(sg, a)
    ensures Acceptable(sg, b)
  {
    hide AtBoundary, Prefix;
    forall i | 0 <= i < |b| ensures b[i].offset <= Prefix(sg, |sg|) {
      assert b[i] in multiset(a);
    }
    forall i, j | 0 <= i < j < |b| && b[i].offset == b[j].offset ensures AtBoundary(sg, 0, b[i].offset) {
      if b[i] == b[j] {
        Twice(b, i, j);
        var k, l := TwicePlaces(a, b[i]);
      } else {
        assert b[i] in multiset(a) && b[j] in multiset(a);
        var k :| 0 <= k < |a| && a[k] == b[i];
        var l :| 0 <= l < |a| && a[l] == b[j];
        assert k < l || l < k;
      }
    }
  }

  // ----- the loop

  /** Writes the next descriptor; the list has room for it. */
  method Emit(entry: array<Entry>, desc: nat, e: Entry)
    requires desc < entry.Length
    modifies entry
    ensures entry[..desc + 1] == old(entry[..desc]) + [e]
  {
    entry[desc] := e;
  }

  /** The descriptors of one scatter entry: data blocks up to its buckets, the buckets, what is left of it. */
  method FillEntry(sg: seq<Chunk>, bs: seq<Bucket>, entry: array<Entry>, i: nat, offset: nat, desc0: nat, bit0: nat, last0: nat,
                   ghost list0: seq<Entry>)
    returns (desc: nat, bit: nat, last: nat, ghost list: seq<Entry>)
    requires Scatter(sg) && Sorted(bs) && entry.Length >= Count(sg, bs)
    requires i < |sg| && offset == Prefix(sg, i) && bit0 <= |bs| && At(sg, bs, list0, i, 0, bit0, last0)
    requires desc0 <= entry.Length && list0 == entry[..desc0]
    modifies entry
    ensures bit <= |bs| && At(sg, bs, list, i + 1, 0, bit, last)
    ensures desc <= entry.Length && list == entry[..desc]
  {
    hide At, Count;
    desc, bit, last, list := desc0, bit0, last0, list0;
    var sgAddr: nat, sgLen: nat, sgOft: nat := sg[i].addr, sg[i].len, 0;
    Where(sg, bs, list, i, sgOft, bit, last);
    while bit < |bs|
      invariant bit <= |bs| && sgOft <= sgLen && At(sg, bs, list, i, sgOft, bit, last)
      invariant desc <= entry.Length && list == entry[..desc]
      decreases |bs| - bit
    {
      Where(sg, bs, list, i, sgOft, bit, last);
      var hole := Entry(0, bs[bit].length);
      if bs[bit].offset < offset + sgLen {
        if last != bs[bit].offset {
          var data := Entry(sgAddr + sgOft, bs[bit].offset - (offset + sgOft));
          StepInside(sg, bs, list, i, sgOft, bit, last);
          list := list + [data] + [hole];
          sgOft := sgOft + data.len;
          Fits(sg, bs, list, i, sgOft, bit + 1, bs[bit].offset);
          Emit(entry, desc, data);
          desc := desc + 1;
        } else {
          StepInsideAgain(sg, bs, list, i, sgOft, bit, last);
          list := list + [hole];
          Fits(sg, bs, list, i, sgOft, bit + 1, bs[bit].offset);
        }
        Emit(entry, desc, hole);
        desc := desc + 1;
        last := bs[bit].offset;
        bit := bit + 1;
      } else if bs[bit].offset == offset + sgLen {
        if last != bs[bit].offset {
          var data := Entry(sgAddr + sgOft, sgLen - sgOft);
          StepEnd(sg, bs, list, i, sgOft, bit, last);
          list := list + [data] + [hole];
          sgOft := sgOft + data.len;
          Fits(sg, bs, list, i, sgOft, bit + 1, bs[bit].offset);
          Emit(entry, desc, data);
          desc := desc + 1;
        } else {
          StepEndAgain(sg, bs, list, i, sgOft, bit, last);
          list := list + [hole];
          Fits(sg, bs, list, i, sgOft, bit + 1, bs[bit].offset);
        }
        Emit(entry, desc, hole);
        desc := desc + 1;
        last := bs[bit].offset;
        bit := bit + 1;
      } else {
        if sgLen - sgOft > 0 {
          desc, list := EmitRest(sg, bs, entry, i, sgOft, desc, bit, last, list);
          sgOft := sgLen;
        }
        break;
      }
    }
    Where(sg, bs, list, i, sgOft, bit, last);
    if bit >= |bs| && sgLen - sgOft > 0 {
      desc, list := EmitRest(sg, bs, entry, i, sgOft, desc, bit, last, list);
      sgOft := sgLen;
    }
    StepNext(sg, bs, list, i, bit, last);
  }

  /** What is left of a scatter entry with no more buckets in it. */
  method EmitRest(sg: seq<Chunk>, bs: seq<Bucket>, entry: array<Entry>, i: nat, sgOft: nat, desc0: nat, bit: nat, last: nat,
                  ghost list0: seq<Entry>)
    returns (desc: nat, ghost list: seq<Entry>)
    requires Scatter(sg) && entry.Length >= Count(sg, bs) && i < |sg| && sgOft < sg[i].len
    requires bit <= |bs| && At(sg, bs, list0, i, sgOft, bit, last)
    requires bit < |bs| ==> bs[bit].offset > Prefix(sg, i) + sg[i].len
    requires desc0 <= entry.Length && list0 == entry[..desc0]
    modifies entry
    ensures At(sg, bs, list, i, sg[i].len, bit, last)
    ensures desc <= entry.Length && list == entry[..desc]
  {
    hide At, Count;
    var data := Entry(sg[i].addr + sgOft, sg[i].len - sgOft);
    StepFinish(sg, bs, list0, i, sgOft, bit, last);
    list := list0 + [data];
    Fits(sg, bs, list, i, sg[i].len, bit, last);
    Emit(entry, desc0, data);
    desc := desc0 + 1;
  }

  /**
   Fills the descriptor list for sorted buckets. `nrDesc` is the number allocated, at least the
   number counted. Every write is inside the latter, `desc` is how many were written, and the list
   is kept exactly when it is full.
   */
  method InitSglDescList(sg: seq<Chunk>, bs: seq<Bucket>, nrDesc: nat, alloc: bool)
    returns (result: Option<seq<Entry>>, desc: nat)
    requires Scatter(sg) && sg != [] && Sorted(bs) && nrDesc >= Count(sg, bs)
    ensures desc <= Count(sg, bs) && (alloc ==> (desc == Count(sg, bs) <==> Acceptable(sg, bs)))
    ensures result.Some? <==> alloc && Acceptable(sg, bs) && nrDesc == Count(sg, bs)
    ensures result.Some? ==> |result.value| == nrDesc && Trace(result.value) == Weave(Bytes(sg), 0, bs)
    ensures result.Some? ==> Spliced(Trace(result.value), sg, bs)
  {
    hide At, AtStart, AtEnd, Trace, Weave, Count, Acceptable, Bytes, Spliced;
    desc := 0;
    if !alloc {
      return None, desc;
    }
    var entry := new Entry[nrDesc](_ => Entry(0, 0));
    ghost var list: seq<Entry> := [];
    var offset: nat, last: nat, bit: nat := 0, 0, 0;
    StartInit(sg, bs);
    while bit < |bs| && bs[bit].offset <= offset
      invariant bit <= |bs| && last == 0 == offset && AtStart(sg, bs, list, bit)
      invariant desc <= nrDesc && list == entry[..desc]
    {
      StepStart(sg, bs, list, bit);
      list := list + [Entry(0, bs[bit].length)];
      StartFits(sg, bs, list, bit + 1);
      Emit(entry, desc, Entry(0, bs[bit].length));
      desc := desc + 1;
      last := bs[bit].offset;
      bit := bit + 1;
    }
    StartDone(sg, bs, list, bit);
    for i := 0 to |sg|
      invariant offset == Prefix(sg, i) && At(sg, bs, list, i, 0, bit, last) && bit <= |bs|
      invariant desc <= nrDesc && list == entry[..desc]
    {
      desc, bit, last, list := FillEntry(sg, bs, entry, i, offset, desc, bit, last, list);
      offset := offset + sg[i].len;
    }
    EndInit(sg, bs, list, bit, last);
    while bit < |bs|
      invariant bit <= |bs| && AtEnd(sg, bs, list, bit, last)
      invariant desc <= nrDesc && list == entry[..desc]
    {
      StepEndOfData(sg, bs, list, bit, last);
      list := list + [Entry(0, bs[bit].length)];
      EndFits(sg, bs, list, bit + 1, bs[bit].offset);
      Emit(entry, desc, Entry(0, bs[bit].length));
      desc := desc + 1;
      last := bs[bit].offset;
      bit := bit + 1;
    }
    Filled(sg, bs, list, last);
    if desc != nrDesc {
      return None, desc;
    }
    WeaveIsSpliced(sg, bs);
    assert entry[..] == list;
    result := Some(entry[..]);
  }

  lemma {:induction false} EndFits(sg: seq<Chunk>, bs: seq<Bucket>, list: seq<Entry>, bit: nat, last: nat)
    requires AtEnd(sg, bs, list, bit, last)
    ensures |list| <= Count(sg, bs)
  {
    SlackBound(sg, last, bs[bit..]);
  }

  lemma {:induction false} StartFits(sg: seq<Chunk>, bs: seq<Bucket>, list: seq<Entry>, bit: nat)
    requires AtStart(sg, bs, list, bit)
    ensures |list| <= Count(sg, bs)
  {
    SlackBound(sg, 0, bs[bit..]);
    SlackBound(sg, 0, bs);
  }

  lemma {:induction false} Fits(sg: seq<Chunk>, bs: seq<Bucket>, list: seq<Entry>, i: nat, oft: nat, bit: nat, last: nat)
    requires At(sg, bs, list, i, oft, bit, last)
    ensures |list| <= Count(sg, bs)
  {
    SlackBound(sg, last, bs[bit..]);
  }

  /** Slack never exceeds the cost of the buckets it comes from. */
  lemma {:induction false} SlackBound(sg: seq<Chunk>, last: nat, bs: seq<Bucket>)
    ensures Slack(sg, last, bs) <= CostSum(sg, bs)
    decreases |bs|
  {
    if bs != [] {
      SlackBound(sg, bs[0].offset, bs[1..]);
    }
  }

  lemma {:induction false} Where(sg: seq<Chunk>, bs: seq<Bucket>, list: seq<Entry>, i: nat, oft: nat, bit: nat, last: nat)
    requires At(sg, bs, list, i, oft, bit, last) && i < |sg|
    ensures Prefix(sg, i + 1) == Prefix(sg, i) + sg[i].len && oft <= sg[i].len
    ensures bit < |bs| ==> bs[bit].offset >= Prefix(sg, i) + oft
    ensures bit < |bs| ==> (last == bs[bit].offset <==> bs[bit].offset == Prefix(sg, i) + oft)
  {
  }

  lemma {:induction false} Filled(sg: seq<Chunk>, bs: seq<Bucket>, list: seq<Entry>, last: nat)
    requires Scatter(sg) && sg != [] && Sorted(bs) && AtEnd(sg, bs, list, |bs|, last)
    ensures Trace(list) == Weave(Bytes(sg), 0, bs)
    ensures |list| <= Count(sg, bs) && (|list| == Count(sg, bs) <==> Acceptable(sg, bs))
  {
    assert bs[|bs|..] == [];
    SlackIsZero(sg, 0, bs);
    PrefixIsBoundary(sg, 0, 0);
  }
}
