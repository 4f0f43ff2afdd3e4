/**
 PRP setup of modules/dnvme/cmd.c: a mapped scatter list becomes PRP1, PRP2 or a chain of PRP
 list pages. The partner is a walker that reads the command and the list pages the way the
 controller does.
 */
module PrpList {
  import opened Wrappers
  import opened Linux
  import opened Sequences

  const PAGE := 4096
  const PER_PAGE := 512

  /** A scatter entry, or one contiguous piece of a transfer. */
  datatype Chunk = Chunk(addr: nat, len: nat)

  function Min(a: int, b: int): int {
    if a < b then a else b
  }

  function DivRoundUp(a: nat, b: nat): nat
    requires b > 0
  {
    (a + b - 1) / b
  }

  // ----- pages in memory, by bus address

  function Find(dma: seq<nat>, addr: nat): (j: nat)
    ensures j <= |dma|
    ensures j < |dma| ==> dma[j] == addr
    ensures forall i :: 0 <= i < j ==> dma[i] != addr
  {
    FirstWith(dma, x => x == addr)
  }

  lemma {:induction false} FindDistinct(dma: seq<nat>, j: nat)
    requires Distinct(dma) && j < |dma|
    ensures Find(dma, dma[j]) == j
  {
    assert Find(dma, dma[j]) <= j;
  }

  // ----- what a transfer means: the byte addresses it touches, in order

  ghost function Range(addr: nat, len: nat): (r: seq<nat>)
    ensures |r| == len
  {
    seq(len, (i: nat) => addr + i)
  }

  ghost function Bytes(chunks: seq<Chunk>): seq<nat> {
    if chunks == [] then [] else Range(chunks[0].addr, chunks[0].len) + Bytes(chunks[1..])
  }

  function Total(sg: seq<Chunk>): nat {
    if sg == [] then 0 else sg[0].len + Total(sg[1..])
  }

  /** What the driver may rely on: pieces are not empty and cover the buffer. */
  ghost predicate Covers(sg: seq<Chunk>, size: nat) {
    sg != [] && (forall i :: 0 <= i < |sg| ==> sg[i].len > 0) && size <= Total(sg)
  }

  /**
   A buffer mapped page by page, with physically adjacent pages possibly merged: only the first
   piece may start inside a page and only the last may end inside one.
   */
  ghost predicate PageMapped(sg: seq<Chunk>, size: nat) {
    && Covers(sg, size) && Total(sg) == size
    && (forall i :: 0 < i < |sg| ==> Aligned(sg[i].addr))
    && (forall i :: 0 <= i < |sg| - 1 ==> Aligned(sg[i].addr + sg[i].len))
  }

  /** Offset of an address in its page. */
  function Offset(x: nat): (oft: nat)
    ensures oft < PAGE
  {
    x % PAGE
  }

  predicate Aligned(x: nat) {
    Offset(x) == 0
  }

  // ----- the entries the fill loop writes

  /**
   Entries written from a position in the scatter list: `addr` and `len` are what is left of the
   current piece, `rem` what is left of the buffer. None when a piece ends inside a page.
   */
  function Entries(addr: nat, len: int, rest: seq<Chunk>, rem: int, oft: nat): (e: Option<seq<nat>>)
    requires 0 < rem <= len + Total(rest) && oft < PAGE
    requires forall i :: 0 <= i < |rest| ==> rest[i].len > 0
    ensures e.Some? ==> |e.value| == DivRoundUp(rem + oft, PAGE) && e.value[0] == addr
    decreases rem
  {
    var rem', len' := rem - (PAGE - oft), len - (PAGE - oft);
    if rem' <= 0 then Some([addr])
    else if len' < 0 then None
    else
      Before([addr], if len' > 0 then Entries(addr + PAGE, len', rest, rem', 0)
                     else Entries(rest[0].addr, rest[0].len, rest[1..], rem', 0))
  }

  function Before(e: seq<nat>, tail: Option<seq<nat>>): Option<seq<nat>> {
    if tail.None? then None else Some(e + tail.value)
  }

  lemma {:induction false} BeforeTwice(e: seq<nat>, x: nat, tail: Option<seq<nat>>)
    ensures Before(e, Before([x], tail)) == Before(e + [x], tail)
  {
    if tail.Some? {
      assert e + ([x] + tail.value) == (e + [x]) + tail.value;
    }
  }

  /** Content of position `q` of the list pages: data entries, then a link in the last slot of a page. */
  function SlotAt(e: seq<nat>, dma: seq<nat>, q: nat): nat {
    var j, k := q / PER_PAGE, q % PER_PAGE;
    if k < PER_PAGE - 1 then
      if j * (PER_PAGE - 1) + k < |e| then e[j * (PER_PAGE - 1) + k] else 0
    else if (j + 1) * (PER_PAGE - 1) < |e| && j + 1 < |dma| then dma[j + 1] else 0
  }

  ghost predicate IsLayout(list: seq<nat>, e: seq<nat>, dma: seq<nat>) {
    && |list| == |dma| * PER_PAGE && |e| <= |dma| * (PER_PAGE - 1)
    && forall q :: 0 <= q < |list| ==> list[q] == SlotAt(e, dma, q)
  }

  /** What has been stored at position `q` once the loop has passed it. */
  ghost function Stored(e: seq<nat>, dma: seq<nat>, q: nat): nat {
    var j, k := q / PER_PAGE, q % PER_PAGE;
    if k < PER_PAGE - 1 then
      if j * (PER_PAGE - 1) + k < |e| then e[j * (PER_PAGE - 1) + k] else 0
    else if j + 1 < |dma| then dma[j + 1] else 0
  }

  /** Data position of entry `m`: 511 entries a page. */
  ghost predicate Position(m: nat, j: nat, k: nat) {
    k < PER_PAGE && m == j * (PER_PAGE - 1) + k
  }

  lemma {:induction false} StoredNext(e: seq<nat>, x: nat, dma: seq<nat>, j: nat, k: nat)
    requires Position(|e|, j, k) && k < PER_PAGE - 1
    ensures Stored(e + [x], dma, j * PER_PAGE + k) == x
    ensures forall q: nat :: q < j * PER_PAGE + k ==> Stored(e + [x], dma, q) == Stored(e, dma, q)
  {
  }

  /** After the last data entry, what was stored is the layout and the rest is still zero. */
  lemma {:induction false} LayoutDone(list: seq<nat>, e: seq<nat>, dma: seq<nat>, j: nat, k: nat)
    requires |list| == |dma| * PER_PAGE && j < |dma| && k < PER_PAGE - 1 && |e| == j * (PER_PAGE - 1) + k + 1
    requires forall q :: 0 <= q < |list| ==> list[q] == if q <= j * PER_PAGE + k then Stored(e, dma, q) else 0
    ensures IsLayout(list, e, dma)
  {
    forall q | 0 <= q < |list| ensures list[q] == SlotAt(e, dma, q) {
      var j', k' := q / PER_PAGE, q % PER_PAGE;
      assert q == j' * PER_PAGE + k';
    }
  }

  // ----- taking list pages from the DMA pool

  /** What memory allocation answers: whether the two tables are granted, and the bus address of the n-th page. */
  datatype Pool = Pool(tables: bool, page: nat -> Option<nat>)

  ghost predicate Grants(pool: Pool, n: nat) {
    pool.tables && forall i: nat :: i < n ==> pool.page(i).Some?
  }

  /** Pages that are granted are different pages. */
  ghost predicate Separate(pool: Pool) {
    forall i: nat, j: nat :: i < j && pool.page(i).Some? && pool.page(j).Some? ==> pool.page(i) != pool.page(j)
  }

  /** Takes `n` pages, or gives back, last one first, exactly those it had taken. */
  method TakePages(n: nat, pool: Pool) returns (dma: Option<seq<nat>>, freed: seq<nat>)
    ensures dma.Some? <==> Grants(pool, n)
    ensures dma.Some? ==> |dma.value| == n && freed == [] && forall i :: 0 <= i < n ==> pool.page(i) == Some(dma.value[i])
    ensures dma.Some? && Separate(pool) ==> Distinct(dma.value)
    ensures dma.None? && pool.tables ==>
              && |freed| < n && pool.page(|freed|).None?
              && forall i :: 0 <= i < |freed| ==> pool.page(i) == Some(freed[|freed| - 1 - i])
    ensures !pool.tables ==> freed == []
  {
    freed := [];
    if !pool.tables {
      return None, freed;
    }
    var taken: seq<nat> := [];
    while |taken| < n
      invariant |taken| <= n && forall i :: 0 <= i < |taken| ==> pool.page(i) == Some(taken[i])
    {
      var page := pool.page(|taken|);
      if page.None? {
        var i := |taken|;
        while i > 0
          invariant 0 <= i <= |taken| && |freed| == |taken| - i
          invariant forall k :: 0 <= k < |freed| ==> freed[k] == taken[|taken| - 1 - k]
        {
          i := i - 1;
          freed := freed + [taken[i]];
        }
        return None, freed;
      }
      taken := taken + [page.value];
    }
    dma := Some(taken);
  }

  /**
   The fill loop. `dma` holds the bus addresses of the list pages, which are zeroed; list page `j`
   is `list[j * PER_PAGE..]`.
   */
  method FillPrpList(sg: seq<Chunk>, at: nat, addr: nat, len: int, size: int, oft: nat, dma: seq<nat>)
    returns (ret: int, list: array<nat>)
    requires at < |sg| && (forall i :: 0 <= i < |sg| ==> sg[i].len > 0)
    requires 0 < size <= len + Total(sg[at + 1..]) && oft < PAGE
    requires |dma| == DivRoundUp(DivRoundUp(size + oft, PAGE), PER_PAGE - 1)
    ensures fresh(list)
    ensures var e := Entries(addr, len, sg[at + 1..], size, oft);
            && (ret == 0 <==> e.Some?) && (ret != 0 ==> ret == EFAULT)
            && (ret == 0 ==> IsLayout(list[..], e.value, dma))
  {
    hide Stored, DivRoundUp, Before, IsLayout, Entries, Total, SlotAt;
    list := new nat[|dma| * PER_PAGE](_ => 0);
    ghost var rest := sg[at + 1..];
    ghost var all := Entries(addr, len, rest, size, oft);
    ghost var e: seq<nat> := [];
    var i: nat, dmaAddr: nat, dmaLen, bufLen, pgOft: nat := at, addr, len, size, oft;
    var j: nat, k: nat := 0, 0;
    BeforeNothing(all);
    LinkInRange(size + oft, 0, 0);
    while bufLen > 0
      invariant at <= i < |sg| && j < |dma| && Position(|e|, j, k)
      invariant rest == sg[i + 1..]
      invariant 0 < bufLen <= dmaLen + Total(rest) && pgOft < PAGE
      invariant bufLen + pgOft == size + oft - |e| * PAGE
      invariant all == Before(e, Entries(dmaAddr, dmaLen, rest, bufLen, pgOft))
      invariant forall q :: 0 <= q < list.Length ==> list[q] == if q < j * PER_PAGE + k then Stored(e, dma, q) else 0
      decreases bufLen, k
    {
      if k == PER_PAGE - 1 {
        LinkInRange(size + oft, |e|, j + 1);
        j := j + 1;
        list[(j - 1) * PER_PAGE + k] := dma[j];
        LinkStored(e, dma, j - 1);
        k := 0;
      } else {
        EntriesFrom(dmaAddr, dmaLen, rest, bufLen, pgOft);
        list[j * PER_PAGE + k] := dmaAddr;
        StoredNext(e, dmaAddr, dma, j, k);
        e := e + [dmaAddr];
        bufLen := bufLen - (PAGE - pgOft);
        dmaLen := dmaLen - (PAGE - pgOft);
        pgOft := 0;
        if bufLen <= 0 {
          LastEntry(e, dmaAddr);
          LayoutDone(list[..], e, dma, j, k);
          return 0, list;
        }
        assert e[..|e| - 1] + [dmaAddr] == e;
        if dmaLen > 0 {
          BeforeTwice(e[..|e| - 1], dmaAddr, Entries(dmaAddr + PAGE, dmaLen, rest, bufLen, 0));
          dmaAddr := dmaAddr + (PAGE - pgOft);
        } else if dmaLen < 0 {
          NoEntry(e[..|e| - 1]);
          return EFAULT, list;
        } else {
          BeforeTwice(e[..|e| - 1], dmaAddr, Entries(rest[0].addr, rest[0].len, rest[1..], bufLen, 0));
          i := i + 1;
          rest := rest[1..];
          dmaAddr := sg[i].addr;
          dmaLen := sg[i].len;
        }
        k := k + 1;
      }
    }
    ret := 0;
  }

  lemma {:induction false} EntriesFrom(addr: nat, len: int, rest: seq<Chunk>, rem: int, oft: nat)
    requires 0 < rem <= len + Total(rest) && oft < PAGE
    requires forall i :: 0 <= i < |rest| ==> rest[i].len > 0
    ensures rem <= PAGE - oft ==> Entries(addr, len, rest, rem, oft) == Some([addr])
    ensures rem > PAGE - oft > len ==> Entries(addr, len, rest, rem, oft) == None
    ensures rem > PAGE - oft && len > PAGE - oft ==>
              Entries(addr, len, rest, rem, oft) ==
              Before([addr], Entries(addr + PAGE, len - (PAGE - oft), rest, rem - (PAGE - oft), 0))
    ensures rem > PAGE - oft == len ==>
              && rest != [] && Total(rest) == rest[0].len + Total(rest[1..])
              && Entries(addr, len, rest, rem, oft) ==
                 Before([addr], Entries(rest[0].addr, rest[0].len, rest[1..], rem - (PAGE - oft), 0))
  {
  }

  lemma {:induction false} BeforeNothing(tail: Option<seq<nat>>)
    ensures Before([], tail) == tail
  {
    if tail.Some? {
      assert [] + tail.value == tail.value;
    }
  }

  lemma {:induction false} LastEntry(e: seq<nat>, x: nat)
    requires e != [] && e[|e| - 1] == x
    ensures Before(e[..|e| - 1], Some([x])) == Some(e)
  {
    assert e[..|e| - 1] + [x] == e;
  }

  lemma {:induction false} NoEntry(e: seq<nat>)
    ensures Before(e, None) == None
  {
  }

  /** A link is written only while bytes remain, so it never points past the allocated pages. */
  lemma {:induction false} LinkInRange(span: nat, m: nat, j: nat)
    requires m * PAGE < span && m == j * (PER_PAGE - 1)
    ensures j < DivRoundUp(DivRoundUp(span, PAGE), PER_PAGE - 1)
  {
  }

  lemma {:induction false} LinkStored(e: seq<nat>, dma: seq<nat>, j: nat)
    requires j + 1 < |dma|
    ensures Stored(e, dma, j * PER_PAGE + PER_PAGE - 1) == dma[j + 1]
  {
  }

  // ----- mapping the buffer

  /** The entry starts in page `i`: at the buffer's offset in the first, at the front of the others. */
  predicate InPage(pages: seq<Option<nat>>, c: Chunk, i: nat, offset: nat)
    requires i < |pages|
  {
    pages[i] == Some(c.addr - if i == 0 then offset else 0)
  }

  lemma {:induction false} PieceInPage(pages: seq<Option<nat>>, c: Chunk, i: nat, offset: nat)
    requires i < |pages| && pages[i].Some? && c.addr == pages[i].value + if i == 0 then offset else 0
    ensures InPage(pages, c, i, offset)
  {
  }

  /** One scatter entry a page; `pages[i]` is the bus address of page `i`, or None if it is missing. */
  method PagesToSgl(pages: seq<Option<nat>>, offset: nat, len: nat, alloc: bool) returns (sgl: Option<seq<Chunk>>)
    requires offset < PAGE && 0 < len && |pages| == DivRoundUp(offset + len, PAGE)
    requires forall i :: 0 <= i < |pages| && pages[i].Some? ==> Aligned(pages[i].value)
    ensures sgl.None? <==> !alloc || exists i :: 0 <= i < |pages| && pages[i].None?
    ensures sgl.Some? ==> PageMapped(sgl.value, len) && |sgl.value| == |pages| && Offset(sgl.value[0].addr) == offset
    ensures sgl.Some? ==> forall i :: 0 <= i < |pages| ==> InPage(pages, sgl.value[i], i, offset)
  {
    if !alloc {
      return None;
    }
    var sg: seq<Chunk> := [];
    var left, oft := len, offset;
    for i := 0 to |pages|
      invariant |sg| == i && (forall j :: 0 <= j < i ==> pages[j].Some?)
      invariant oft == if i == 0 then offset else 0
      invariant i > 0 ==> left == offset + len - i * PAGE && Offset(sg[0].addr) == offset
      invariant i == 0 ==> left == len
      invariant Total(sg) == len - (if left > 0 then left else 0)
      invariant forall j :: 0 <= j < i ==> sg[j].len > 0
      invariant forall j :: 0 <= j < i ==> InPage(pages, sg[j], j, offset)
      invariant forall j :: 0 < j < i ==> Aligned(sg[j].addr)
      invariant forall j :: 0 <= j < i && (j < i - 1 || left > 0) ==> Aligned(sg[j].addr + sg[j].len)
    {
      hide Aligned, Total, InPage, Offset;
      if pages[i].None? {
        return None;
      }
      var piece := Chunk(pages[i].value + oft, Min(left, PAGE - oft));
      PieceAligned(pages[i].value, oft, left);
      PieceInPage(pages, piece, i, offset);
      TotalPush(sg, piece);
      sg := sg + [piece];
      left := left - (PAGE - oft);
      oft := 0;
    }
    sgl := Some(sg);
  }

  lemma {:induction false} PieceAligned(page: nat, oft: nat, left: nat)
    requires Aligned(page) && oft < PAGE
    ensures Offset(page + oft) == oft
    ensures left >= PAGE - oft ==> Aligned(page + oft + (PAGE - oft))
    ensures oft == 0 ==> Aligned(page + oft)
  {
  }

  lemma {:induction false} TotalPush(sg: seq<Chunk>, x: Chunk)
    ensures Total(sg + [x]) == Total(sg) + x.len
  {
    if sg != [] {
      assert (sg + [x])[1..] == sg[1..] + [x];
      TotalPush(sg[1..], x);
    }
  }

  lemma {:induction false} BytesConcat(a: seq<Chunk>, b: seq<Chunk>)
    ensures Bytes(a + b) == Bytes(a) + Bytes(b) && Total(a + b) == Total(a) + Total(b)
  {
    if a == [] {
      assert a + b == b;
    } else {
      assert (a + b)[1..] == a[1..] + b;
      BytesConcat(a[1..], b);
    }
  }

  lemma {:induction false} RangeSplit(addr: nat, a: nat, b: nat)
    ensures Range(addr, a + b) == Range(addr, a) + Range(addr + a, b)
  {
  }

  /** Merges entries `i` and `i + 1`, as the mapping may when they are adjacent. */
  function Merge(sg: seq<Chunk>, i: nat): seq<Chunk>
    requires i + 1 < |sg|
  {
    sg[..i] + [Chunk(sg[i].addr, sg[i].len + sg[i + 1].len)] + sg[i + 2..]
  }

  /** Merging adjacent entries keeps the buffer and its mapped form. */
  lemma {:induction false} MergeKeepsBuffer(sg: seq<Chunk>, size: nat, i: nat)
    requires PageMapped(sg, size) && i + 1 < |sg| && sg[i].addr + sg[i].len == sg[i + 1].addr
    ensures PageMapped(Merge(sg, i), size) && Bytes(Merge(sg, i)) == Bytes(sg)
  {
    hide Aligned, Bytes, Total;
    MergeBytes(sg, i);
    var m := Merge(sg, i);
    forall j | 0 <= j < |m| ensures m[j].len > 0 && (j > 0 ==> Aligned(m[j].addr)) && (j < |m| - 1 ==> Aligned(m[j].addr + m[j].len)) {
      if j > i {
        assert m[j] == sg[j + 1];
      }
    }
  }

  lemma {:induction false} MergeBytes(sg: seq<Chunk>, i: nat)
    requires i + 1 < |sg| && sg[i].addr + sg[i].len == sg[i + 1].addr
    ensures Bytes(Merge(sg, i)) == Bytes(sg) && Total(Merge(sg, i)) == Total(sg)
  {
    hide Bytes, Total, Range;
    var one, two := [Chunk(sg[i].addr, sg[i].len + sg[i + 1].len)], [sg[i], sg[i + 1]];
    assert sg == sg[..i] + two + sg[i + 2..];
    BytesConcat(sg[..i] + two, sg[i + 2..]);
    BytesConcat(sg[..i], two);
    BytesConcat(sg[..i] + one, sg[i + 2..]);
    BytesConcat(sg[..i], one);
    MergeTwo(sg[i], sg[i + 1]);
  }

  lemma {:induction false} MergeTwo(a: Chunk, b: Chunk)
    requires a.addr + a.len == b.addr
    ensures Bytes([Chunk(a.addr, a.len + b.len)]) == Bytes([a, b])
    ensures Total([Chunk(a.addr, a.len + b.len)]) == Total([a, b])
  {
    RangeSplit(a.addr, a.len, b.len);
    assert [a, b][1..] == [b];
    assert Bytes([b]) == Range(b.addr, b.len);
  }

  lemma {:induction false} TotalHead(sg: seq<Chunk>)
    requires sg != []
    ensures Total(sg) == sg[0].len + Total(sg[1..])
  {
  }
}
