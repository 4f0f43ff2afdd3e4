/**
 Netlink attributes of lib/nvme/netlink.c: puts append an attribute to a message of fixed size, and
 a loop over the attribute stream builds a table by type. Bytes are modelled one by one; lengths
 and types are 16-bit little-endian fields.
 */
module NetlinkAttr {
  import opened Wrappers
  import opened Linux

  type byte = x: int | 0 <= x < 256

  const HEADER: nat := 4
  const MESSAGE_HEADER: nat := 16
  const GENL_HEADER: nat := 4
  const TYPE_MASK: nat := 0x4000

  function Align(n: nat): (r: nat)
    ensures n <= r < n + 4 && r % 4 == 0 && (n % 4 == 0 ==> r == n)
  {
    (n + 3) / 4 * 4
  }

  function AttrSize(payload: nat): nat {
    HEADER + payload
  }

  function TotalSize(payload: nat): nat {
    Align(AttrSize(payload))
  }

  function PadLen(payload: nat): (p: nat)
    ensures p < 4
  {
    TotalSize(payload) - AttrSize(payload)
  }

  function Low(n: nat): byte {
    n % 256
  }

  function High(n: nat): byte {
    n / 256 % 256
  }

  function Word(lo: byte, hi: byte): (w: nat)
    ensures w < U16
  {
    lo + 256 * hi
  }

  lemma {:induction false} WordRoundTrip(n: nat)
    ensures Word(Low(n), High(n)) == n % U16
  {
  }

  // ----- the stream of attributes

  datatype Put = Put(kind: nat, data: seq<byte>)

  function Zeros(n: nat): (z: seq<byte>)
    ensures |z| == n && forall i :: 0 <= i < n ==> z[i] == 0
  {
    if n == 0 then [] else Zeros(n - 1) + [0]
  }

  /** The bytes of one attribute. */
  function Encode(p: Put): (s: seq<byte>)
    ensures |s| == TotalSize(|p.data|)
  {
    var n := AttrSize(|p.data|);
    [Low(n), High(n), Low(p.kind), High(p.kind)] + p.data + Zeros(PadLen(|p.data|))
  }

  function EncodeAll(ps: seq<Put>): seq<byte> {
    if ps == [] then [] else Encode(ps[0]) + EncodeAll(ps[1..])
  }

  /** An attribute as the reader finds it: where it starts, its type and its payload. */
  datatype Found = Found(at: nat, kind: nat, data: seq<byte>)

  function LengthAt(s: seq<byte>, at: nat): nat
    requires at + HEADER <= |s|
  {
    Word(s[at], s[at + 1])
  }

  function KindAt(s: seq<byte>, at: nat): nat
    requires at + HEADER <= |s|
  {
    Word(s[at + 2], s[at + 3]) % TYPE_MASK
  }

  /** May the attribute at `at` be accessed, with `rem` bytes left? */
  predicate AttrOk(s: seq<byte>, at: nat, rem: int)
    requires at + rem <= |s|
  {
    rem >= HEADER && LengthAt(s, at) >= HEADER && LengthAt(s, at) <= rem
  }

  function FoundAt(s: seq<byte>, at: nat): Found
    requires at + HEADER <= |s| && HEADER <= LengthAt(s, at) && at + LengthAt(s, at) <= |s|
  {
    Found(at, KindAt(s, at), s[at + HEADER..at + LengthAt(s, at)])
  }

  /** All attributes from `at` on; the rounding of the last length may run past the end. */
  function Stream(s: seq<byte>, at: nat, rem: int): (fs: seq<Found>)
    requires at + rem <= |s|
    decreases rem
  {
    if !AttrOk(s, at, rem) then []
    else
      var step := Align(LengthAt(s, at));
      [FoundAt(s, at)] + Stream(s, at + step, rem - step)
  }

  /** Bytes left over after the last attribute, zero or less if it ran to the end. */
  function Leftover(s: seq<byte>, at: nat, rem: int): int
    requires at + rem <= |s|
    decreases rem
  {
    if !AttrOk(s, at, rem) then rem
    else
      var step := Align(LengthAt(s, at));
      Leftover(s, at + step, rem - step)
  }

  /** The last attribute of a type. */
  function Last(fs: seq<Found>, kind: nat): (r: Option<Found>)
    ensures r.Some? <==> exists i :: 0 <= i < |fs| && fs[i].kind == kind
    ensures r.Some? ==> r.value in fs && r.value.kind == kind
  {
    if fs == [] then None
    else if fs[|fs| - 1].kind == kind then Some(fs[|fs| - 1])
    else Last(fs[..|fs| - 1], kind)
  }

  // ----- reading the stream

  /** Where the pointer in the table points. */
  function Pointer(f: Option<Found>): Option<nat> {
    if f.None? then None else Some(f.value.at)
  }

  lemma {:induction false} LastAdd(fs: seq<Found>, f: Found, kind: nat)
    ensures Last(fs + [f], kind) == if f.kind == kind then Some(f) else Last(fs, kind)
  {
    assert (fs + [f])[..|fs|] == fs;
  }

  /** The first comparison of the test is unsigned, so a negative remainder passes it. */
  predicate ReadsLength(rem: int) {
    rem < 0 || rem >= HEADER
  }

  /** The test as it is made: with a negative remainder the length is `beyond`, read past the stream. */
  predicate AttrTest(s: seq<byte>, at: nat, rem: int, beyond: nat)
    requires at + rem <= |s|
    ensures AttrTest(s, at, rem, beyond) == AttrOk(s, at, rem)
  {
    && ReadsLength(rem)
    && var length := if rem < 0 then beyond else LengthAt(s, at);
       length >= HEADER && length <= rem
  }

  /** Where an attribute ends once its length is rounded up. */
  function EndOf(f: Found): nat {
    f.at + Align(HEADER + |f.data|)
  }

  /** The rounded length of the last attribute passes the end exactly when the remainder goes negative; never for an aligned stream. */
  lemma {:induction false} NegativeLeftover(s: seq<byte>, at: nat, rem: nat)
    requires at + rem <= |s|
    ensures Leftover(s, at, rem) > -4
    ensures var fs := Stream(s, at, rem);
            Leftover(s, at, rem) < 0 <==> fs != [] && EndOf(fs[|fs| - 1]) > at + rem
    ensures rem % 4 == 0 ==> Leftover(s, at, rem) >= 0
    decreases rem
  {
    hide LengthAt, KindAt, Align;
    if AttrOk(s, at, rem) {
      var step := Align(LengthAt(s, at));
      assert step <= LengthAt(s, at) + 3;
      var fs := Stream(s, at, rem);
      var more := Stream(s, at + step, rem - step);
      assert fs == [FoundAt(s, at)] + more;
      assert EndOf(FoundAt(s, at)) == at + step;
      if step <= rem {
        NegativeLeftover(s, at + step, rem - step);
        LastOfMore(FoundAt(s, at), more);
        MultipleOfFour(rem, step);
      } else {
        assert more == [] && Leftover(s, at, rem) == rem - step;
        MultipleOfFour(rem, step);
      }
    }
  }

  lemma {:induction false} LastOfMore(f: Found, more: seq<Found>)
    ensures more != [] ==> ([f] + more)[|more|] == more[|more| - 1]
  {
  }

  lemma {:induction false} MultipleOfFour(rem: nat, step: nat)
    requires step % 4 == 0
    ensures rem % 4 == 0 && step < rem + 4 ==> step <= rem && (rem - step) % 4 == 0
  {
  }

  /** Five bytes with an attribute of length five. */
  lemma {:induction false} NegativeExample()
    ensures Leftover([5, 0, 0, 0, 1], 0, 5) == -3
  {
    var s: seq<byte> := [5, 0, 0, 0, 1];
    assert LengthAt(s, 0) == 5;
    assert AttrOk(s, 0, 5) && Align(5) == 8;
  }

  /**
   The parse loop, on any bytes: it ends, and the table holds for every type up to the largest the
   last attribute of that type. `past` says whether the last test read a length past the stream;
   what it read there, `beyond`, makes no difference.
   */
  method Parse(s: seq<byte>, head: nat, len: nat, maxType: nat, beyond: nat)
    returns (table: array<Option<nat>>, leftover: int, past: bool)
    requires head + len <= |s|
    ensures past <==> leftover < 0
    ensures fresh(table) && table.Length == maxType + 1
    ensures forall k :: 0 <= k <= maxType ==> table[k] == Pointer(Last(Stream(s, head, len), k))
    ensures leftover == Leftover(s, head, len)
  {
    hide LengthAt, KindAt, Align, Last;
    table := new Option<nat>[maxType + 1](_ => None);
    var at, rem: int := head, len;
    ghost var done: seq<Found> := [];
    NothingFound();
    while AttrTest(s, at, rem, beyond)
      invariant at + rem == head + len
      invariant Stream(s, head, len) == done + Stream(s, at, rem)
      invariant Leftover(s, head, len) == Leftover(s, at, rem)
      invariant forall k :: 0 <= k <= maxType ==> table[k] == Pointer(Last(done, k))
      decreases rem
    {
      var kind, step := KindAt(s, at), Align(LengthAt(s, at));
      ghost var f := FoundAt(s, at);
      forall k | 0 <= k <= maxType
        ensures Last(done + [f], k) == if f.kind == k then Some(f) else Last(done, k)
      {
        LastAdd(done, f, k);
      }
      if kind <= maxType {
        table[kind] := Some(at);
      }
      done := done + [f];
      at, rem := at + step, rem - step;
    }
    past := rem < 0;
    leftover := rem;
    assert done == done + [];
  }

  lemma {:induction false} NothingFound()
    ensures forall k :: Last([], k) == None
  {
  }

  // ----- round trip

  /** A length that its 16-bit field can hold. */
  predicate Representable(p: Put) {
    AttrSize(|p.data|) < U16
  }

  ghost predicate AllRepresentable(ps: seq<Put>) {
    forall i :: 0 <= i < |ps| ==> Representable(ps[i])
  }

  /** The reader found exactly the attributes put, types reduced to their 14 bits. */
  ghost predicate Matches(fs: seq<Found>, ps: seq<Put>) {
    |fs| == |ps| && forall i :: 0 <= i < |ps| ==> fs[i].kind == ps[i].kind % TYPE_MASK && fs[i].data == ps[i].data
  }

  /** One encoded attribute, wherever it stands: its length modulo 65536, the low bits of its type, its payload. */
  lemma {:induction false} ReadOne(pre: seq<byte>, p: Put, post: seq<byte>)
    ensures var s := pre + Encode(p) + post;
            && LengthAt(s, |pre|) == AttrSize(|p.data|) % U16
            && KindAt(s, |pre|) == p.kind % TYPE_MASK
            && s[|pre| + HEADER..|pre| + AttrSize(|p.data|)] == p.data
  {
    hide Encode, Low, High, Word, Align;
    var e, n := Encode(p), AttrSize(|p.data|);
    EncodeHeader(p);
    Inside(pre, e, post, HEADER, n);
    WordRoundTrip(n);
    WordRoundTrip(p.kind);
    MaskedTwice(p.kind);
    var s := pre + e + post;
    assert s[|pre| + 0] == e[0] && s[|pre| + 1] == e[1] && s[|pre| + 2] == e[2] && s[|pre| + 3] == e[3];
  }

  lemma {:induction false} EncodeHeader(p: Put)
    ensures var e, n := Encode(p), AttrSize(|p.data|);
            && n <= |e| && e[0] == Low(n) && e[1] == High(n) && e[2] == Low(p.kind) && e[3] == High(p.kind)
            && e[HEADER..n] == p.data
  {
    hide Low, High, Zeros, Align;
  }

  /** A piece of a text seen from the text around it. */
  lemma {:induction false} Inside(pre: seq<byte>, e: seq<byte>, post: seq<byte>, a: nat, b: nat)
    requires a <= b <= |e|
    ensures var s := pre + e + post;
            && (forall k :: 0 <= k < |e| ==> s[|pre| + k] == e[k])
            && s[|pre| + a..|pre| + b] == e[a..b]
  {
  }

  lemma {:induction false} MaskedTwice(k: nat)
    ensures k % U16 % TYPE_MASK == k % TYPE_MASK
  {
  }

  /** Reading a stream of puts gives the puts, with nothing left over. */
  lemma {:induction false} StreamOfPuts(pre: seq<byte>, ps: seq<Put>)
    requires AllRepresentable(ps)
    ensures var s, rem := pre + EncodeAll(ps), |EncodeAll(ps)|;
            Matches(Stream(s, |pre|, rem), ps) && Leftover(s, |pre|, rem) == 0
    decreases |ps|
  {
    hide Stream, Leftover, Encode, Representable;
    if ps == [] {
      EmptyStream(pre + EncodeAll(ps), |pre|);
    } else {
      var p, more := ps[0], ps[1..];
      assert pre + EncodeAll(ps) == pre + Encode(p) + EncodeAll(more);
      FirstOfStream(pre, p, EncodeAll(more));
      StreamOfPuts(pre + Encode(p), more);
    }
  }

  lemma {:induction false} EmptyStream(s: seq<byte>, at: nat)
    requires at <= |s|
    ensures Stream(s, at, 0) == [] && Leftover(s, at, 0) == 0
  {
  }

  /** A stream that starts with an encoded attribute. */
  lemma {:induction false} FirstOfStream(pre: seq<byte>, p: Put, post: seq<byte>)
    requires Representable(p)
    ensures var s, at, next := pre + Encode(p) + post, |pre|, |pre + Encode(p)|;
            && Stream(s, at, |s| - at) == [Found(at, p.kind % TYPE_MASK, p.data)] + Stream(s, next, |post|)
            && Leftover(s, at, |s| - at) == Leftover(s, next, |post|)
  {
    hide LengthAt, KindAt, Encode, Align;
    ReadOne(pre, p, post);
  }

  /** The payload of the last put of a type. */
  function LastPut(ps: seq<Put>, kind: nat): (r: Option<seq<byte>>)
    ensures r.None? <==> forall i :: 0 <= i < |ps| ==> ps[i].kind % TYPE_MASK != kind
    ensures r.Some? ==> exists i :: 0 <= i < |ps| && ps[i].kind % TYPE_MASK == kind && ps[i].data == r.value &&
                                    forall j :: i < j < |ps| ==> ps[j].kind % TYPE_MASK != kind
  {
    if ps == [] then None
    else if ps[|ps| - 1].kind % TYPE_MASK == kind then Some(ps[|ps| - 1].data)
    else LastPut(ps[..|ps| - 1], kind)
  }

  lemma {:induction false} LastIsLastPut(fs: seq<Found>, ps: seq<Put>, kind: nat)
    requires Matches(fs, ps)
    ensures Last(fs, kind).Some? <==> LastPut(ps, kind).Some?
    ensures Last(fs, kind).Some? ==> Last(fs, kind).value.data == LastPut(ps, kind).value
    decreases |ps|
  {
    var n := |ps|;
    if n > 0 && fs[n - 1].kind != kind {
      LastIsLastPut(fs[..n - 1], ps[..n - 1], kind);
    }
  }

  // ----- building a message

  /** The payload that a reader of the whole buffer takes from the attribute at `at`. */
  function PayloadAt(s: seq<byte>, at: nat): Option<seq<byte>>
    requires at <= |s|
  {
    if AttrOk(s, at, |s| - at) then Some(FoundAt(s, at).data) else None
  }

  /** The puts that are accepted when `room` bytes are left: one that does not fit is passed over. */
  function Accepted(ps: seq<Put>, room: int): (r: seq<Put>)
    ensures |EncodeAll(r)| <= room || r == []
    decreases |ps|
  {
    if ps == [] then []
    else if TotalSize(|ps[0].data|) > room then Accepted(ps[1..], room)
    else
      var r := [ps[0]] + Accepted(ps[1..], room - TotalSize(|ps[0].data|));
      assert r[1..] == Accepted(ps[1..], room - TotalSize(|ps[0].data|));
      r
  }

  /** A payload is read back exactly when its length fits the field. */
  lemma {:induction false} ReadsBack(s: seq<byte>, at: nat, p: Put)
    requires at + AttrSize(|p.data|) <= |s| && LengthAt(s, at) == AttrSize(|p.data|) % U16
    requires forall i :: 0 <= i < |p.data| ==> s[at + HEADER + i] == p.data[i]
    ensures PayloadAt(s, at) == Some(p.data) <==> Representable(p)
  {
    hide LengthAt, KindAt;
    if Representable(p) {
      assert s[at + HEADER..at + AttrSize(|p.data|)] == p.data;
    }
  }

  /** Header, payload and cleared padding are the encoding. */
  lemma {:induction false} Laid(s: seq<byte>, at: nat, p: Put)
    requires Representable(p) && at + TotalSize(|p.data|) <= |s|
    requires var n := AttrSize(|p.data|);
             && s[at] == Low(n) && s[at + 1] == High(n) && s[at + 2] == Low(p.kind) && s[at + 3] == High(p.kind)
             && forall i :: at + n <= i < at + TotalSize(|p.data|) ==> s[i] == 0
    requires forall i :: 0 <= i < |p.data| ==> s[at + HEADER + i] == p.data[i]
    ensures s[..at + TotalSize(|p.data|)] == s[..at] + Encode(p)
  {
    hide Low, High, Align;
    var t := s[at..at + TotalSize(|p.data|)];
    assert t[HEADER..AttrSize(|p.data|)] == p.data;
    assert t == Encode(p);
  }

  class Message {
    const size: nat
    const buf: array<byte>
    /** Length so far, headers included; puts keep it aligned. */
    var len: nat

    ghost predicate Valid()
      reads this
    {
      buf.Length == size && MESSAGE_HEADER <= len <= size && len % 4 == 0
    }

    constructor (size: nat)
      requires size >= MESSAGE_HEADER
      ensures Valid() && fresh(buf) && this.size == size && len == MESSAGE_HEADER
    {
      this.size := size;
      buf := new byte[size](_ => 0);
      len := MESSAGE_HEADER;
    }

    /** Room for `n` more bytes, rounded up to four; the rounding is cleared. */
    method ReserveRoom(n: nat) returns (at: Option<nat>)
      requires Valid()
      modifies this`len, buf
      ensures Valid() && forall i :: 0 <= i < old(len) ==> buf[i] == old(buf[i])
      ensures at == if old(len) + Align(n) > size then None else Some(old(len))
      ensures len == if at.None? then old(len) else old(len) + Align(n)
      ensures at.None? ==> buf[..] == old(buf[..])
      ensures at.Some? ==> forall i :: old(len) + n <= i < len ==> buf[i] == 0
    {
      var room := Align(n);
      if room + len > size {
        return None;
      }
      at := Some(len);
      Clear(len + n, room - n);
      len := len + room;
    }

    /** The generic netlink header of a new message. */
    method GenlPut(command: byte, version: byte)
      requires Valid() && len == MESSAGE_HEADER && GENL_HEADER <= size - len
      modifies this`len, buf
      ensures Valid() && len == MESSAGE_HEADER + GENL_HEADER
      ensures buf[MESSAGE_HEADER] == command && buf[MESSAGE_HEADER + 1] == version
    {
      var hdr := ReserveRoom(GENL_HEADER);
      buf[hdr.value], buf[hdr.value + 1] := command, version;
    }

    /** Reserves an attribute and fills in its header; the length field keeps only 16 bits. */
    method Reserve(kind: nat, payload: nat) returns (nla: Option<nat>)
      requires Valid()
      modifies this`len, buf
      ensures Valid() && forall i :: 0 <= i < old(len) ==> buf[i] == old(buf[i])
      ensures nla == if old(len) + TotalSize(payload) > size then None else Some(old(len))
      ensures nla.None? ==> len == old(len) && buf[..] == old(buf[..])
      ensures nla.Some? ==> len == old(len) + TotalSize(payload)
      ensures nla.Some? ==> LengthAt(buf[..], nla.value) == AttrSize(payload) % U16
      ensures nla.Some? && AttrSize(payload) < U16 ==>
                && buf[nla.value] == Low(AttrSize(payload)) && buf[nla.value + 1] == High(AttrSize(payload))
                && buf[nla.value + 2] == Low(kind) && buf[nla.value + 3] == High(kind)
                && forall i :: nla.value + AttrSize(payload) <= i < len ==> buf[i] == 0
    {
      hide Align, Low, High;
      Sizes(len, payload);
      WrappedLength(AttrSize(payload), AttrSize(payload) % U16);
      var total := Align(len) + TotalSize(payload);
      if total > size {
        return None;
      }
      var at := Align(len);
      var length := AttrSize(payload) % U16;
      buf[at], buf[at + 1] := Low(length), High(length);
      buf[at + 2], buf[at + 3] := Low(kind), High(kind);
      Clear(at + length, PadLen(payload));
      len := total;
      nla := Some(at);
    }

    /**
     Puts an attribute. One that does not fit leaves the message as it was; one that fits extends it
     by its encoding, and its payload can be read back exactly when its length fits 16 bits.
     */
    method PutAttr(p: Put) returns (ok: bool)
      requires Valid()
      modifies this`len, buf
      ensures Valid()
      ensures ok <==> TotalSize(|p.data|) <= size - old(len)
      ensures !ok ==> len == old(len) && buf[..] == old(buf[..])
      ensures ok ==> len == old(len) + TotalSize(|p.data|)
      ensures ok && Representable(p) ==> buf[..len] == old(buf[..len]) + Encode(p)
      ensures ok ==> (PayloadAt(buf[..], old(len)) == Some(p.data) <==> Representable(p))
    {
      hide Align, Low, High, Word, Encode, PayloadAt;
      Sizes(len, |p.data|);
      var nla := Reserve(p.kind, |p.data|);
      if nla.None? {
        return false;
      }
      var at := nla.value;
      forall i | 0 <= i < |p.data| {
        buf[at + HEADER + i] := p.data[i];
      }
      ReadsBack(buf[..], at, p);
      if Representable(p) {
        assert buf[..at] == old(buf[..len]);
        Laid(buf[..], at, p);
      }
      ok := true;
    }

    /** Puts a sequence of attributes, passing over those that do not fit. */
    method PutAll(ps: seq<Put>)
      requires Valid() && (size <= U16 || AllRepresentable(ps))
      modifies this`len, buf
      ensures Valid()
      ensures buf[..len] == old(buf[..len]) + EncodeAll(Accepted(ps, size - old(len)))
    {
      hide Encode, EncodeAll, Accepted, TotalSize;
      ghost var start, room := buf[..len], size - len;
      assert ps[0..] == ps;
      for i := 0 to |ps|
        invariant Valid()
        invariant buf[..len] + EncodeAll(Accepted(ps[i..], size - len)) == start + EncodeAll(Accepted(ps, room))
      {
        AcceptedStep(ps, i, size - len);
        RoomIsRepresentable(ps[i], size, len);
        var ok := PutAttr(ps[i]);
      }
      NoMoreAccepted(ps, size - len);
    }

    method Clear(begin: nat, n: nat)
      requires begin + n <= buf.Length
      modifies buf
      ensures forall i :: 0 <= i < buf.Length ==> buf[i] == if begin <= i < begin + n then 0 else old(buf[i])
    {
      for k := begin to begin + n
        invariant forall i :: 0 <= i < buf.Length ==> buf[i] == if begin <= i < k then 0 else old(buf[i])
      {
        buf[k] := 0;
      }
    }
  }

  lemma {:induction false} Sizes(len: nat, payload: nat)
    requires len % 4 == 0
    ensures TotalSize(payload) == AttrSize(payload) + PadLen(payload)
    ensures Align(len) == len && (len + TotalSize(payload)) % 4 == 0
  {
  }

  /** The padding never changes the length field, even one that wrapped. */
  lemma {:induction false} WrappedLength(n: nat, length: nat)
    requires length == n % U16
    ensures Word(Low(length), High(length)) == length
    ensures length <= n && (length == 0 ==> Align(n) == n) && (length == 1 ==> High(length) == 0)
  {
    WordRoundTrip(length);
    hide Word, Low;
    if length == 0 {
      var k := n / U16;
      assert n == 4 * (0x4000 * k);
    }
  }

  lemma {:induction false} AcceptedStep(ps: seq<Put>, i: nat, room: int)
    requires i < |ps|
    ensures TotalSize(|ps[i].data|) > room ==> Accepted(ps[i..], room) == Accepted(ps[i + 1..], room)
    ensures TotalSize(|ps[i].data|) <= room ==>
              EncodeAll(Accepted(ps[i..], room)) ==
              Encode(ps[i]) + EncodeAll(Accepted(ps[i + 1..], room - TotalSize(|ps[i].data|)))
  {
    hide Encode, TotalSize;
    assert ps[i..][1..] == ps[i + 1..];
    if TotalSize(|ps[i].data|) <= room {
      var more := Accepted(ps[i + 1..], room - TotalSize(|ps[i].data|));
      assert ([ps[i]] + more)[1..] == more;
    }
  }

  lemma {:induction false} NoMoreAccepted(ps: seq<Put>, room: int)
    ensures EncodeAll(Accepted(ps[|ps|..], room)) == []
  {
  }

  /** In a message of at most 64 KiB whatever fits has a length of 16 bits. */
  lemma {:induction false} RoomIsRepresentable(p: Put, size: nat, len: nat)
    requires len >= MESSAGE_HEADER && (size <= U16 || Representable(p))
    ensures TotalSize(|p.data|) <= size - len ==> Representable(p)
  {
  }

  lemma {:induction false} AcceptedRepresentable(ps: seq<Put>, size: nat, room: int)
    requires room <= size - MESSAGE_HEADER && (size <= U16 || AllRepresentable(ps))
    ensures AllRepresentable(Accepted(ps, room))
    decreases |ps|
  {
    hide Representable, EncodeAll, Encode;
    if ps != [] {
      var n: int := TotalSize(|ps[0].data|);
      AcceptedRepresentable(ps[1..], size, room);
      if n <= room {
        AcceptedRepresentable(ps[1..], size, room - n);
        RoomIsRepresentable(ps[0], size, MESSAGE_HEADER);
      }
    }
  }

  /** An attribute that was found is what stands at its place. */
  ghost predicate Stands(s: seq<byte>, f: Found) {
    && f.at + HEADER <= |s| && HEADER <= LengthAt(s, f.at) && f.at + LengthAt(s, f.at) <= |s|
    && f == FoundAt(s, f.at)
  }

  lemma {:induction false} StreamStands(s: seq<byte>, at: nat, rem: int)
    requires at + rem <= |s|
    ensures forall f :: f in Stream(s, at, rem) ==> Stands(s, f)
    decreases rem
  {
    hide LengthAt, KindAt, Align;
    if AttrOk(s, at, rem) {
      StreamStands(s, at + Align(LengthAt(s, at)), rem - Align(LengthAt(s, at)));
    }
  }

  /**
   A message built by puts and then parsed: every type has the payload of its last accepted put,
   types never put have none, and no bytes are left over.
   */
  method PutAndParse(size: nat, ps: seq<Put>, maxType: nat) returns (payloads: seq<Option<seq<byte>>>, leftover: int)
    requires size >= MESSAGE_HEADER + GENL_HEADER && (size <= U16 || AllRepresentable(ps))
    ensures |payloads| == maxType + 1 && leftover == 0
    ensures forall k :: 0 <= k <= maxType ==> payloads[k] == LastPut(Accepted(ps, size - MESSAGE_HEADER - GENL_HEADER), k)
  {
    hide Stream, Leftover, Accepted, EncodeAll, Last, LastPut, LengthAt, KindAt, Align;
    var message := new Message(size);
    message.GenlPut(1, 1);
    ghost var pre, room := message.buf[..message.len], size - message.len;
    message.PutAll(ps);
    var s := message.buf[..message.len];
    var head := MESSAGE_HEADER + GENL_HEADER;
    ghost var accepted := Accepted(ps, room);
    AcceptedRepresentable(ps, size, room);
    StreamOfPuts(pre, accepted);
    StreamStands(s, head, |s| - head);
    var table, left, past := Parse(s, head, |s| - head, maxType, 0);
    ghost var fs := Stream(s, head, |s| - head);
    leftover := left;
    payloads := [];
    for k := 0 to maxType + 1
      invariant |payloads| == k && forall j :: 0 <= j < k ==> payloads[j] == LastPut(accepted, j)
      invariant forall j :: 0 <= j <= maxType ==> table[j] == Pointer(Last(fs, j))
    {
      LastIsLastPut(fs, accepted, k);
      assert Last(fs, k).Some? ==> Stands(s, Last(fs, k).value);
      payloads := payloads + [if table[k].None? then None else Some(s[table[k].value + HEADER..table[k].value + LengthAt(s, table[k].value)])];
    }
  }
}
