/**
 The whole of PRP setup, and the controller's walk back from PRP1, PRP2 and the list pages to the
 bytes of the buffer.
 */
module PrpWalk {
  import opened Wrappers
  import opened Linux
  import opened Sequences
  import opened PrpList

  // ----- the walk

  /** The piece of the transfer one PRP entry stands for. */
  function Piece(entry: nat, rem: nat): (c: Chunk)
    requires rem > 0
    ensures 0 < c.len <= rem
  {
    Chunk(entry, Min(rem, PAGE - Offset(entry)))
  }

  /**
   Walks the list page at bus address `page` from slot `k` for `rem` bytes. The last slot of a
   page is a link while bytes remain; a controller that follows section 4.3 of NVM Express 1.4
   (`std`) takes it as data when one page or less remains. None when a link leads nowhere.
   */
  ghost function WalkList(list: seq<nat>, dma: seq<nat>, page: nat, k: nat, rem: nat, std: bool): Option<seq<Chunk>>
    requires |list| == |dma| * PER_PAGE && k < PER_PAGE
    decreases rem, if k == PER_PAGE - 1 then 1 else 0
  {
    if rem == 0 then Some([])
    else
      var j := Find(dma, page);
      if j == |dma| then None
      else
        var entry := list[j * PER_PAGE + k];
        if k == PER_PAGE - 1 && !(std && rem <= PAGE) then WalkList(list, dma, entry, 0, rem, std)
        else
          var c := Piece(entry, rem);
          Then(c, WalkList(list, dma, page, if k == PER_PAGE - 1 then k else k + 1, rem - c.len, std))
  }

  ghost function Then(c: Chunk, rest: Option<seq<Chunk>>): Option<seq<Chunk>> {
    if rest.None? then None else Some([c] + rest.value)
  }

  /** Walks a command: PRP1 alone, PRP1 and PRP2, PRP1 and the list at PRP2, or for queues the list at PRP1. */
  ghost function Walk(out: Prps, size: nat, create: bool, std: bool): Option<seq<Chunk>>
    requires |out.list| == |out.dma| * PER_PAGE && size > 0
  {
    if create then WalkList(out.list, out.dma, out.prp1, 0, size, std)
    else
      var first := Piece(out.prp1, size);
      var rem := size - first.len;
      if rem == 0 then Some([first])
      else if rem <= PAGE then Some([first, Chunk(out.prp2, rem)])
      else Then(first, WalkList(out.list, out.dma, out.prp2, 0, rem, std))
  }

  // ----- entries as pieces

  /** The pieces a sequence of entries stands for. */
  ghost function Pieces(e: seq<nat>, rem: nat): seq<Chunk> {
    if e == [] || rem == 0 then [] else [Piece(e[0], rem)] + Pieces(e[1..], rem - Piece(e[0], rem).len)
  }

  /** The entries are exactly enough for `rem` bytes. */
  ghost predicate Exact(e: seq<nat>, rem: nat) {
    if e == [] then rem == 0 else rem > 0 && Exact(e[1..], rem - Piece(e[0], rem).len)
  }

  /** Entries after the first start pages. */
  ghost predicate TailAligned(e: seq<nat>) {
    forall i :: 0 < i < |e| ==> Aligned(e[i])
  }

  /** A position in a page-mapped scatter list. */
  ghost predicate Mapped(addr: nat, len: int, rest: seq<Chunk>, rem: int) {
    && len > 0 && rem == len + Total(rest)
    && (rest != [] ==> Aligned(addr + len))
    && (forall i :: 0 <= i < |rest| ==> rest[i].len > 0 && Aligned(rest[i].addr))
    && (forall i :: 0 <= i < |rest| - 1 ==> Aligned(rest[i].addr + rest[i].len))
  }

  /** From such a position the loop never faults and its entries stand for exactly the bytes left. */
  lemma {:induction false} EntriesRecover(addr: nat, len: int, rest: seq<Chunk>, rem: int, oft: nat)
    requires Mapped(addr, len, rest, rem) && oft == Offset(addr)
    requires oft == 0 || len <= PAGE - oft
    ensures var e := Entries(addr, len, rest, rem, oft);
            && e.Some? && Exact(e.value, rem) && TailAligned(e.value)
            && Bytes(Pieces(e.value, rem)) == Range(addr, len) + Bytes(rest)
    decreases rem
  {
    hide Offset;
    hide Bytes, Range, Pieces, Exact;
    EntriesFrom(addr, len, rest, rem, oft);
    PieceWithin(addr, len, rest, rem, oft);
    if rem <= PAGE - oft {
      OnePiece(addr, rem);
      NoBytes(rest);
    } else if len > PAGE - oft {
      MappedFurther(addr, len, rest, rem);
      EntriesRecover(addr + PAGE, len - PAGE, rest, rem - PAGE, 0);
      var e := Entries(addr + PAGE, len - PAGE, rest, rem - PAGE, 0).value;
      ConsPieces(addr, e, rem);
      RangeSplit(addr, PAGE, len - PAGE);
      assert Range(addr, PAGE) + (Range(addr + PAGE, len - PAGE) + Bytes(rest)) == Range(addr, len) + Bytes(rest);
    } else {
      EntriesRecover(rest[0].addr, rest[0].len, rest[1..], rem - len, 0);
      var e := Entries(rest[0].addr, rest[0].len, rest[1..], rem - len, 0).value;
      ConsPieces(addr, e, rem);
      BytesHead(rest);
    }
  }

  /** Inside a page-mapped list a piece ends at a page boundary or with the buffer. */
  lemma {:induction false} PieceWithin(addr: nat, len: int, rest: seq<Chunk>, rem: int, oft: nat)
    requires Mapped(addr, len, rest, rem) && oft == Offset(addr)
    ensures rem <= PAGE - oft ==> rest == [] && len == rem
    ensures rem > PAGE - oft ==> len >= PAGE - oft
    ensures rem > PAGE - oft == len ==> rest != [] && Offset(rest[0].addr) == 0 &&
                                        Mapped(rest[0].addr, rest[0].len, rest[1..], rem - len)
  {
    if rest != [] {
      assert Offset(addr + len) == 0;
      assert len >= PAGE - oft;
      TotalHead(rest);
    }
  }

  lemma {:induction false} MappedFurther(addr: nat, len: int, rest: seq<Chunk>, rem: int)
    requires Mapped(addr, len, rest, rem) && Offset(addr) == 0 && len > PAGE
    ensures Mapped(addr + PAGE, len - PAGE, rest, rem - PAGE) && Offset(addr + PAGE) == 0
  {
  }

  lemma {:induction false} OnePiece(addr: nat, rem: nat)
    requires 0 < rem <= PAGE - Offset(addr)
    ensures Exact([addr], rem) && Bytes(Pieces([addr], rem)) == Range(addr, rem)
  {
    assert Pieces([addr], rem) == [Chunk(addr, rem)];
    assert Bytes([Chunk(addr, rem)]) == Range(addr, rem) + Bytes([]);
  }

  lemma {:induction false} NoBytes(rest: seq<Chunk>)
    requires rest == []
    ensures Bytes(rest) == []
  {
  }

  lemma {:induction false} BytesHead(rest: seq<Chunk>)
    requires rest != []
    ensures Bytes(rest) == Range(rest[0].addr, rest[0].len) + Bytes(rest[1..])
  {
  }

  lemma {:induction false} ConsPieces(x: nat, e: seq<nat>, rem: nat)
    requires rem > PAGE - Offset(x)
    requires Exact(e, rem - (PAGE - Offset(x)))
    ensures Exact([x] + e, rem)
    ensures Bytes(Pieces([x] + e, rem)) == Range(x, PAGE - Offset(x)) + Bytes(Pieces(e, rem - (PAGE - Offset(x))))
  {
    assert ([x] + e)[1..] == e;
    var c, tail := Piece(x, rem), Pieces(e, rem - (PAGE - Offset(x)));
    assert Pieces([x] + e, rem) == [c] + tail;
    assert ([c] + tail)[1..] == tail;
  }

  // ----- the whole setup

  datatype Mask = Prp1Page | Prp1List | Prp2Page | Prp2List

  /** The command's two pointers, with the bus addresses and contents of the list pages they lead to. */
  datatype Prps = Prps(prp1: nat, prp2: nat, dma: seq<nat>, list: seq<nat>)

  /** Where the scatter list stands after the first page has been given to PRP1. */
  datatype Position2 = Position2(at: nat, addr: nat, len: int)

  function AfterFirstPage(sg: seq<Chunk>): Position2
    requires sg != []
  {
    var first := PAGE - Offset(sg[0].addr);
    if sg[0].len != first || |sg| == 1 then Position2(0, sg[0].addr + first, sg[0].len - first)
    else Position2(1, sg[1].addr, sg[1].len)
  }

  /** The list a page list stands for, given the entries from some position on. */
  ghost predicate ListBuilt(out: Prps, head: nat, e: Option<seq<nat>>) {
    && e.Some? && IsLayout(out.list, e.value, out.dma)
    && |out.dma| == DivRoundUp(|e.value|, PER_PAGE - 1) && out.dma != [] && head == out.dma[0]
  }

  ghost predicate Built(out: Prps, sg: seq<Chunk>, size: nat, create: bool)
    requires Covers(sg, size) && size > 0
  {
    var oft := Offset(sg[0].addr);
    if create then
      ListBuilt(out, out.prp1, Entries(sg[0].addr, sg[0].len, sg[1..], size, oft)) && out.prp2 == 0
    else
      var rem, next := size - (PAGE - oft), AfterFirstPage(sg);
      && out.prp1 == sg[0].addr
      && (0 < rem <= PAGE ==> out.prp2 == next.addr)
      && (rem > PAGE ==> rem <= next.len + Total(sg[next.at + 1..]) &&
                         ListBuilt(out, out.prp2, Entries(next.addr, next.len, sg[next.at + 1..], rem, 0)))
  }

  /** The mask bits a request must carry; a missing one is an error. */
  function NeededMask(size: nat, oft: nat, create: bool): set<Mask>
    requires oft < PAGE
  {
    var rem := size - (PAGE - oft);
    if create then {Prp1List}
    else {Prp1Page} + if rem <= 0 then {} else if rem <= PAGE then {Prp2Page} else {Prp2List}
  }

  lemma {:induction false} AfterFirstPageCovers(sg: seq<Chunk>, size: nat)
    requires Covers(sg, size) && size > PAGE - Offset(sg[0].addr)
    ensures var next := AfterFirstPage(sg);
            && next.at < |sg| && size - (PAGE - Offset(sg[0].addr)) <= next.len + Total(sg[next.at + 1..])
            && (sg[0].len == PAGE - Offset(sg[0].addr) ==> |sg| > 1)
  {
    TotalHead(sg);
    if |sg| > 1 {
      TotalHead(sg[1..]);
      assert sg[1..][1..] == sg[2..];
    }
  }

  /** Does the command need list pages, and for how many bytes from what offset on? */
  function ListSpan(size: nat, oft: nat, create: bool): nat
    requires oft < PAGE
  {
    var rem := size - (PAGE - oft);
    if create then size + oft else if rem > PAGE then rem else 0
  }

  /** List pages for so many bytes. */
  function ListPages(span: nat): nat {
    DivRoundUp(DivRoundUp(span, PAGE), PER_PAGE - 1)
  }

  /** Sets up PRP1, PRP2 and the list; `was` is what the user left in the two pointers. */
  method SetupPrps(sg: seq<Chunk>, size: nat, create: bool, mask: set<Mask>, was: (nat, nat), pool: Pool)
    returns (ret: int, out: Prps)
    requires Covers(sg, size) && size > 0
    ensures ret == 0 || ret == EINVAL || ret == ENOMEM || ret == EFAULT
    ensures ret == EINVAL <==> !(NeededMask(size, Offset(sg[0].addr), create) <= mask)
    ensures var span := ListSpan(size, Offset(sg[0].addr), create);
            ret == ENOMEM <==> ret != EINVAL && span > 0 && !Grants(pool, ListPages(span))
    ensures ret == EFAULT ==> !PageMapped(sg, size)
    ensures ret == 0 ==> Built(out, sg, size, create) && |out.list| == |out.dma| * PER_PAGE
    ensures ret == 0 ==> forall i :: 0 <= i < |out.dma| ==> pool.page(i) == Some(out.dma[i])
    ensures ret == 0 && Separate(pool) ==> Distinct(out.dma)
    ensures ret == 0 ==> (|out.dma| > 0 <==> ListSpan(size, Offset(sg[0].addr), create) > 0)
    ensures ret == 0 && !create && size <= PAGE - Offset(sg[0].addr) ==> out.prp2 == was.1
  {
    hide Offset;
    hide DivRoundUp, Total, Entries, IsLayout, Grants, Separate;
    var bufLen: int, dmaAddr, dmaLen: int := size, sg[0].addr, sg[0].len;
    var pgOft, at := Offset(dmaAddr), 0;
    var prp1, prp2 := was.0, was.1;
    if create {
      if Prp1List !in mask {
        return EINVAL, Prps(prp1, prp2, [], []);
      }
    } else {
      if Prp1Page !in mask {
        return EINVAL, Prps(prp1, prp2, [], []);
      }
      prp1 := dmaAddr;
      bufLen := bufLen - (PAGE - pgOft);
      dmaLen := dmaLen - (PAGE - pgOft);
      if bufLen <= 0 {
        return 0, Prps(prp1, prp2, [], []);
      }
      AfterFirstPageCovers(sg, size);
      if dmaLen != 0 {
        dmaAddr := dmaAddr + (PAGE - pgOft);
      } else {
        at := 1;
        dmaAddr, dmaLen := sg[1].addr, sg[1].len;
      }
      pgOft := 0;
      if bufLen <= PAGE {
        if Prp2Page !in mask {
          return EINVAL, Prps(prp1, prp2, [], []);
        }
        return 0, Prps(prp1, dmaAddr, [], []);
      }
      if Prp2List !in mask {
        return EINVAL, Prps(prp1, prp2, [], []);
      }
    }
    TotalHead(sg);
    var nrEntry := DivRoundUp(pgOft + bufLen, PAGE);
    var nrPages := DivRoundUp(nrEntry, PER_PAGE - 1);
    LinkInRange(pgOft + bufLen, 0, 0);
    var taken, freed := TakePages(nrPages, pool);
    if taken.None? {
      return ENOMEM, Prps(prp1, prp2, [], []);
    }
    var dma := taken.value;
    if create {
      prp1, prp2 := dma[0], 0;
    } else {
      prp2 := dma[0];
    }
    var list;
    ret, list := FillPrpList(sg, at, dmaAddr, dmaLen, bufLen, pgOft, dma);
    out := Prps(prp1, prp2, dma, list[..]);
    if ret != 0 {
      if PageMapped(sg, size) {
        MappedNeverFaults(sg, size, create);
      }
    } else {
      LayoutSize(list[..], Entries(dmaAddr, dmaLen, sg[at + 1..], bufLen, pgOft).value, dma);
    }
  }

  /** Lengths alone decide that the loop does not fault: each piece fills its last page. */
  lemma {:induction false} EntriesSome(addr: nat, len: int, rest: seq<Chunk>, rem: int, oft: nat)
    requires len > 0 && rem == len + Total(rest) && oft < PAGE
    requires rest != [] ==> Aligned(oft + len)
    requires forall i :: 0 <= i < |rest| ==> rest[i].len > 0 && Aligned(rest[i].addr)
    requires forall i :: 0 <= i < |rest| - 1 ==> Aligned(rest[i].addr + rest[i].len)
    ensures Entries(addr, len, rest, rem, oft).Some?
    decreases rem
  {
    hide Entries, Total, Offset, Aligned;
    EntriesFrom(addr, len, rest, rem, oft);
    if rest == [] {
      TotalNothing(rest);
    } else {
      TotalHead(rest);
      FillsLastPage(oft, len);
    }
    if rem > PAGE - oft {
      if len > PAGE - oft {
        EntriesSome(addr + PAGE, len - (PAGE - oft), rest, rem - (PAGE - oft), 0);
      } else {
        if |rest| > 1 {
          AlignedLength(rest[0].addr, rest[0].len);
        }
        EntriesSome(rest[0].addr, rest[0].len, rest[1..], rem - len, 0);
      }
    }
  }

  lemma {:induction false} AlignedLength(addr: nat, len: nat)
    requires Aligned(addr) && Aligned(addr + len)
    ensures Aligned(0 + len)
  {
  }

  lemma {:induction false} TotalNothing(rest: seq<Chunk>)
    requires rest == []
    ensures Total(rest) == 0
  {
  }

  lemma {:induction false} FillsLastPage(oft: nat, len: int)
    requires oft < PAGE && len > 0 && Aligned(oft + len)
    ensures len >= PAGE - oft
    ensures len > PAGE - oft ==> Aligned(0 + (len - (PAGE - oft)))
  {
  }

  lemma {:induction false} MappedStart(sg: seq<Chunk>, size: nat)
    requires PageMapped(sg, size)
    ensures Mapped(sg[0].addr, sg[0].len, sg[1..], size)
    ensures sg[1..] != [] ==> Aligned(Offset(sg[0].addr) + sg[0].len)
  {
    TotalHead(sg);
    if |sg| > 1 {
      assert Aligned(sg[0].addr + sg[0].len);
    }
  }

  /** After the first page the position is page-aligned and still mapped. */
  lemma {:induction false} MappedAfterFirst(sg: seq<Chunk>, size: nat)
    requires PageMapped(sg, size) && size > PAGE - Offset(sg[0].addr)
    ensures var next := AfterFirstPage(sg);
            && next.at < |sg| && Offset(next.addr) == 0
            && Mapped(next.addr, next.len, sg[next.at + 1..], size - (PAGE - Offset(sg[0].addr)))
            && Range(sg[0].addr, PAGE - Offset(sg[0].addr)) + (Range(next.addr, next.len) + Bytes(sg[next.at + 1..])) == Bytes(sg)
  {
    hide Offset;
    hide Mapped, Range, Bytes, Total, AfterFirstPage, Aligned;
    MappedStart(sg, size);
    PieceWithin(sg[0].addr, sg[0].len, sg[1..], size, Offset(sg[0].addr));
    AfterFirstPageIs(sg);
    if sg[0].len == PAGE - Offset(sg[0].addr) {
      NextPiece(sg);
    } else {
      SamePiece(sg, size);
    }
  }

  lemma {:induction false} AfterFirstPageIs(sg: seq<Chunk>)
    requires sg != []
    ensures var first := PAGE - Offset(sg[0].addr);
            && (sg[0].len != first ==> AfterFirstPage(sg) == Position2(0, sg[0].addr + first, sg[0].len - first))
            && (sg[0].len == first && |sg| > 1 ==> AfterFirstPage(sg) == Position2(1, sg[1].addr, sg[1].len))
  {
  }

  lemma {:induction false} NextPiece(sg: seq<Chunk>)
    requires |sg| > 1
    ensures sg[1..][0] == sg[1] && sg[1..][1..] == sg[2..]
    ensures Range(sg[0].addr, sg[0].len) + (Range(sg[1].addr, sg[1].len) + Bytes(sg[2..])) == Bytes(sg)
  {
    hide Offset;
    hide Bytes, Range;
    BytesHead(sg);
    BytesHead(sg[1..]);
    assert sg[1..][1..] == sg[2..];
  }

  lemma {:induction false} SamePiece(sg: seq<Chunk>, size: nat)
    requires sg != [] && Mapped(sg[0].addr, sg[0].len, sg[1..], size) && sg[0].len > PAGE - Offset(sg[0].addr)
    ensures var first := PAGE - Offset(sg[0].addr);
            && Offset(sg[0].addr + first) == 0 && Mapped(sg[0].addr + first, sg[0].len - first, sg[1..], size - first)
            && Range(sg[0].addr, first) + (Range(sg[0].addr + first, sg[0].len - first) + Bytes(sg[1..])) == Bytes(sg)
  {
    hide Bytes, Range;
    var first := PAGE - Offset(sg[0].addr);
    BytesHead(sg);
    RangeSplit(sg[0].addr, first, sg[0].len - first);
    var a, b, c := Range(sg[0].addr, first), Range(sg[0].addr + first, sg[0].len - first), Bytes(sg[1..]);
    assert a + (b + c) == (a + b) + c;
  }

  lemma {:induction false} MappedNeverFaults(sg: seq<Chunk>, size: nat, create: bool)
    requires PageMapped(sg, size) && size > 0
    ensures create ==> Entries(sg[0].addr, sg[0].len, sg[1..], size, Offset(sg[0].addr)).Some?
    ensures !create && size > PAGE - Offset(sg[0].addr) ==>
              var next := AfterFirstPage(sg);
              && next.at < |sg|
              && Mapped(next.addr, next.len, sg[next.at + 1..], size - (PAGE - Offset(sg[0].addr)))
              && Entries(next.addr, next.len, sg[next.at + 1..], size - (PAGE - Offset(sg[0].addr)), 0).Some?
  {
    hide Offset;
    hide Entries;
    MappedStart(sg, size);
    if create {
      EntriesSome(sg[0].addr, sg[0].len, sg[1..], size, Offset(sg[0].addr));
    } else if size > PAGE - Offset(sg[0].addr) {
      MappedAfterFirst(sg, size);
      var next := AfterFirstPage(sg);
      EntriesRecover(next.addr, next.len, sg[next.at + 1..], size - (PAGE - Offset(sg[0].addr)), 0);
    }
  }

  // ----- walking a list gives back its entries

  lemma {:induction false} ListWalk(list: seq<nat>, e: seq<nat>, dma: seq<nat>, m: nat, j: nat, k: nat, rem: nat, std: bool)
    requires IsLayout(list, e, dma) && Distinct(dma) && j < |dma|
    requires Position(m, j, k) && m <= |e| && Exact(e[m..], rem)
    requires std ==> TailAligned(e) && !(|e| > 1 && |e| % (PER_PAGE - 1) == 1)
    ensures WalkList(list, dma, dma[j], k, rem, std) == Some(Pieces(e[m..], rem))
    decreases rem, if k == PER_PAGE - 1 then 1 else 0
  {
    hide Offset;
    hide Exact, Pieces, Find, IsLayout, SlotAt, WalkList, Distinct;
    ExactStep(e[m..], rem);
    LayoutSize(list, e, dma);
    if rem == 0 {
      WalkNothing(list, dma, dma[j], k, std);
    } else {
      assert e[m..][1..] == e[m + 1..];
      SlotsOf(list, e, dma, m, j, k);
      WalkStep(list, dma, j, k, rem, std);
      if k == PER_PAGE - 1 {
        if std {
          MoreThanOneLeft(e, m, rem);
        }
        ListWalk(list, e, dma, m, j + 1, 0, rem, std);
      } else {
        ListWalk(list, e, dma, m + 1, j, k + 1, rem - Piece(e[m], rem).len, std);
      }
    }
  }

  lemma {:induction false} LayoutSize(list: seq<nat>, e: seq<nat>, dma: seq<nat>)
    requires IsLayout(list, e, dma)
    ensures |list| == |dma| * PER_PAGE
  {
  }

  lemma {:induction false} WalkNothing(list: seq<nat>, dma: seq<nat>, page: nat, k: nat, std: bool)
    requires |list| == |dma| * PER_PAGE && k < PER_PAGE
    ensures WalkList(list, dma, page, k, 0, std) == Some([])
  {
  }

  /** One step of the walk inside page `j`. */
  lemma {:induction false} WalkStep(list: seq<nat>, dma: seq<nat>, j: nat, k: nat, rem: nat, std: bool)
    requires |list| == |dma| * PER_PAGE && k < PER_PAGE && Distinct(dma) && j < |dma| && rem > 0
    ensures var entry := list[j * PER_PAGE + k];
            WalkList(list, dma, dma[j], k, rem, std) ==
              if k == PER_PAGE - 1 && !(std && rem <= PAGE) then WalkList(list, dma, entry, 0, rem, std)
              else Then(Piece(entry, rem),
                        WalkList(list, dma, dma[j], if k == PER_PAGE - 1 then k else k + 1, rem - Piece(entry, rem).len, std))
  {
    hide Find;
    FindDistinct(dma, j);
  }

  /** What a layout holds at data position `m`: the entry, or at the end of a page the link to the next. */
  lemma {:induction false} SlotsOf(list: seq<nat>, e: seq<nat>, dma: seq<nat>, m: nat, j: nat, k: nat)
    requires IsLayout(list, e, dma) && j < |dma| && Position(m, j, k) && m < |e|
    ensures |list| == |dma| * PER_PAGE
    ensures k < PER_PAGE - 1 ==> list[j * PER_PAGE + k] == e[m]
    ensures k == PER_PAGE - 1 ==> j + 1 < |dma| && list[j * PER_PAGE + k] == dma[j + 1]
  {
    var q := j * PER_PAGE + k;
    assert q / PER_PAGE == j && q % PER_PAGE == k;
    if k == PER_PAGE - 1 {
      PageExists(e, dma, m, j);
    }
    assert list[q] == SlotAt(e, dma, q);
  }

  lemma {:induction false} PageExists(e: seq<nat>, dma: seq<nat>, m: nat, j: nat)
    requires |e| <= |dma| * (PER_PAGE - 1) && m < |e| && m == (j + 1) * (PER_PAGE - 1)
    ensures j + 1 < |dma|
  {
  }

  lemma {:induction false} ExactStep(e: seq<nat>, rem: nat)
    requires Exact(e, rem)
    ensures rem == 0 <==> e == []
    ensures rem == 0 ==> Pieces(e, rem) == []
    ensures rem > 0 ==> Exact(e[1..], rem - Piece(e[0], rem).len) &&
                        Pieces(e, rem) == [Piece(e[0], rem)] + Pieces(e[1..], rem - Piece(e[0], rem).len)
  {
  }

  /** Unless a lone entry would follow the link, more than one page is left when a link is reached. */
  lemma {:induction false} MoreThanOneLeft(e: seq<nat>, m: nat, rem: nat)
    requires 0 < m < |e| && m % (PER_PAGE - 1) == 0 && Exact(e[m..], rem) && TailAligned(e)
    requires !(|e| > 1 && |e| % (PER_PAGE - 1) == 1)
    ensures rem > PAGE
  {
    ExactStep(e[m..], rem);
    assert m + 1 < |e|;
    ExactStep(e[m..][1..], rem - Piece(e[m], rem).len);
    assert Aligned(e[m]);
  }

  // ----- main results

  /** A create-queue buffer whose first scatter entry starts inside a page and reaches past it. */
  predicate Straddles(sg: seq<Chunk>)
    requires sg != []
  {
    Offset(sg[0].addr) != 0 && sg[0].len > PAGE - Offset(sg[0].addr)
  }

  ghost predicate Recovers(walk: Option<seq<Chunk>>, sg: seq<Chunk>) {
    walk.Some? && Bytes(walk.value) == Bytes(sg)
  }

  /** A straddling entry is the only way walking the command does not give back the buffer. */
  lemma {:induction false} WalkRecoversBuffer(out: Prps, sg: seq<Chunk>, size: nat, create: bool)
    requires PageMapped(sg, size) && size > 0 && Built(out, sg, size, create) && Distinct(out.dma)
    requires |out.list| == |out.dma| * PER_PAGE
    requires create ==> !Straddles(sg)
    ensures Recovers(Walk(out, size, create, false), sg)
  {
    hide Offset;
    hide Entries, Bytes, Exact, Range, IsLayout, WalkList;
    var oft := Offset(sg[0].addr);
    MappedStart(sg, size);
    if create {
      EntriesRecover(sg[0].addr, sg[0].len, sg[1..], size, oft);
      var e := Entries(sg[0].addr, sg[0].len, sg[1..], size, oft).value;
      WholeListWalk(out, e, size, false);
      BytesHead(sg);
    } else {
      DirectWalk(out, sg, size, false);
    }
  }

  /** Pages the buffer lies in. */
  ghost function PagesTouched(sg: seq<Chunk>, size: nat): nat
    requires sg != []
  {
    DivRoundUp(Offset(sg[0].addr) + size, PAGE)
  }

  /** Pages the list has entries for: all of them for a queue, those after the first if there are more than two. */
  ghost function PagesListed(sg: seq<Chunk>, size: nat, create: bool): nat
    requires sg != []
  {
    if create then PagesTouched(sg, size) else if PagesTouched(sg, size) > 2 then PagesTouched(sg, size) - 1 else 0
  }

  /** The mask bits by the number of pages: PRP1 a page, PRP2 a page for the second, a list for more, PRP1 a list for a queue. */
  ghost predicate MaskSuffices(mask: set<Mask>, pages: nat, create: bool) {
    if create then Prp1List in mask
    else Prp1Page in mask && (pages == 2 ==> Prp2Page in mask) && (pages > 2 ==> Prp2List in mask)
  }

  lemma {:induction false} PageThresholds(oft: nat, size: nat)
    requires oft < PAGE && size > 0
    ensures var pages := DivRoundUp(oft + size, PAGE);
            && (pages == 1 <==> size <= PAGE - oft)
            && (pages == 2 <==> PAGE - oft < size <= 2 * PAGE - oft)
            && (size > PAGE - oft ==> DivRoundUp(size - (PAGE - oft), PAGE) == pages - 1)
            && pages >= 1
  {
  }

  lemma {:induction false} NeedsByPages(sg: seq<Chunk>, size: nat, create: bool, mask: set<Mask>)
    requires sg != [] && size > 0
    ensures NeededMask(size, Offset(sg[0].addr), create) <= mask <==> MaskSuffices(mask, PagesTouched(sg, size), create)
    ensures var span := ListSpan(size, Offset(sg[0].addr), create);
            && (span > 0 <==> create || PagesTouched(sg, size) > 2)
            && DivRoundUp(span, PAGE) == PagesListed(sg, size, create)
  {
    hide Offset;
    PageThresholds(Offset(sg[0].addr), size);
    assert DivRoundUp(0, PAGE) == 0;
  }

  lemma {:induction false} PiecesLength(e: seq<nat>, rem: nat)
    requires Exact(e, rem)
    ensures |Pieces(e, rem)| == |e|
  {
    if e != [] {
      PiecesLength(e[1..], rem - Piece(e[0], rem).len);
    }
  }

  /** The controller goes through as many pieces as there are pages. */
  lemma {:induction false} WalkLength(out: Prps, sg: seq<Chunk>, size: nat, create: bool)
    requires PageMapped(sg, size) && size > 0 && Built(out, sg, size, create) && Distinct(out.dma)
    requires |out.list| == |out.dma| * PER_PAGE
    requires create ==> !Straddles(sg)
    ensures var w := Walk(out, size, create, false); w.Some? && |w.value| == PagesTouched(sg, size)
  {
    hide Offset;
    hide Entries, Bytes, Exact, Range, IsLayout, WalkList, Pieces;
    var oft := Offset(sg[0].addr);
    var rem := size - (PAGE - oft);
    PageThresholds(oft, size);
    MappedStart(sg, size);
    if create {
      EntriesRecover(sg[0].addr, sg[0].len, sg[1..], size, oft);
      var e := Entries(sg[0].addr, sg[0].len, sg[1..], size, oft).value;
      WholeListWalk(out, e, size, false);
      PiecesLength(e, size);
    } else if rem > PAGE {
      MappedAfterFirst(sg, size);
      var next := AfterFirstPage(sg);
      var rest := sg[next.at + 1..];
      EntriesRecover(next.addr, next.len, rest, rem, 0);
      var e := Entries(next.addr, next.len, rest, rem, 0).value;
      WholeListWalk(out, e, rem, false);
      PiecesLength(e, rem);
    }
  }

  /**
   From the scatter list through the set-up to the walk. A page-mapped buffer with the mask bits and
   pages it needs is always set up, and what the controller walks is the buffer, byte for byte and
   page by page, unless it is a queue's and straddles. List pages are taken exactly when a list is
   needed, and then PRP1 of a queue, or PRP2, leads to the first of them.
   */
  method SetupAndWalk(sg: seq<Chunk>, size: nat, create: bool, mask: set<Mask>, was: (nat, nat), pool: Pool)
    returns (ret: int, out: Prps)
    requires PageMapped(sg, size) && size > 0 && Separate(pool)
    ensures ret == EINVAL <==> !MaskSuffices(mask, PagesTouched(sg, size), create)
    ensures ret == 0 <==>
              && MaskSuffices(mask, PagesTouched(sg, size), create)
              && (create || PagesTouched(sg, size) > 2 ==> Grants(pool, DivRoundUp(PagesListed(sg, size, create), PER_PAGE - 1)))
    ensures ret == 0 || ret == EINVAL || ret == ENOMEM
    ensures ret == 0 ==> |out.list| == |out.dma| * PER_PAGE
    ensures ret == 0 ==> (out.dma == [] <==> !create && PagesTouched(sg, size) <= 2)
    ensures ret == 0 && out.dma != [] ==> (if create then out.prp1 else out.prp2) == out.dma[0]
    ensures ret == 0 && !create ==> out.prp1 == sg[0].addr
    ensures ret == 0 ==> (Recovers(Walk(out, size, create, false), sg) <==> !(create && Straddles(sg)))
    ensures ret == 0 && !(create && Straddles(sg)) ==> |Walk(out, size, create, false).value| == PagesTouched(sg, size)
  {
    hide Offset, DivRoundUp, Grants, Separate, Walk, Straddles, NeededMask, PagesTouched, PagesListed, MaskSuffices, Entries, IsLayout, Bytes;
    NeedsByPages(sg, size, create, mask);
    ret, out := SetupPrps(sg, size, create, mask, was, pool);
    if ret == 0 {
      if create {
        QueueBufferBoundary(out, sg, size);
      } else {
        WalkRecoversBuffer(out, sg, size, create);
      }
      if !(create && Straddles(sg)) {
        WalkLength(out, sg, size, create);
      }
    }
  }

  lemma {:induction false} WholeListWalk(out: Prps, e: seq<nat>, rem: nat, std: bool)
    requires IsLayout(out.list, e, out.dma) && Distinct(out.dma) && out.dma != [] && Exact(e, rem)
    requires std ==> TailAligned(e) && !(|e| > 1 && |e| % (PER_PAGE - 1) == 1)
    ensures WalkList(out.list, out.dma, out.dma[0], 0, rem, std) == Some(Pieces(e, rem))
  {
    assert e[0..] == e;
    ListWalk(out.list, e, out.dma, 0, 0, 0, rem, std);
  }

  lemma {:induction false} DirectWalk(out: Prps, sg: seq<Chunk>, size: nat, std: bool)
    requires PageMapped(sg, size) && size > 0 && Built(out, sg, size, false) && Distinct(out.dma)
    requires |out.list| == |out.dma| * PER_PAGE
    requires std && size > 2 * PAGE - Offset(sg[0].addr) ==>
               var n := DivRoundUp(size - (PAGE - Offset(sg[0].addr)), PAGE); n % (PER_PAGE - 1) != 1
    ensures Recovers(Walk(out, size, false, std), sg)
  {
    hide Offset;
    hide Entries, Bytes, Exact, Range, IsLayout, WalkList, Pieces;
    var oft := Offset(sg[0].addr);
    var rem := size - (PAGE - oft);
    MappedStart(sg, size);
    if rem <= 0 {
      PieceWithin(sg[0].addr, sg[0].len, sg[1..], size, oft);
      BytesHead(sg);
      NoBytes(sg[1..]);
      BytesOne(Chunk(sg[0].addr, size));
    } else {
      MappedAfterFirst(sg, size);
      var next := AfterFirstPage(sg);
      var rest := sg[next.at + 1..];
      if rem <= PAGE {
        PieceWithin(next.addr, next.len, rest, rem, 0);
        NoBytes(rest);
        BytesTwo(Chunk(sg[0].addr, PAGE - oft), Chunk(next.addr, rem));
      } else {
        EntriesRecover(next.addr, next.len, rest, rem, 0);
        var e := Entries(next.addr, next.len, rest, rem, 0).value;
        WholeListWalk(out, e, rem, std);
        BytesCons(Chunk(sg[0].addr, PAGE - oft), Pieces(e, rem));
      }
    }
  }

  lemma {:induction false} BytesCons(c: Chunk, rest: seq<Chunk>)
    ensures Bytes([c] + rest) == Range(c.addr, c.len) + Bytes(rest)
  {
    assert ([c] + rest)[1..] == rest;
  }

  lemma {:induction false} BytesOne(c: Chunk)
    ensures Bytes([c]) == Range(c.addr, c.len)
  {
    BytesCons(c, []);
  }

  lemma {:induction false} BytesTwo(c: Chunk, d: Chunk)
    ensures Bytes([c, d]) == Range(c.addr, c.len) + Range(d.addr, d.len)
  {
    BytesCons(c, [d]);
    BytesOne(d);
    assert [c] + [d] == [c, d];
  }

  // ----- where the walk goes wrong

  /**
   For a create-queue buffer that straddles, the second entry is one whole page after the first
   instead of at the next page boundary, so no walk gives back the buffer.
   */
  lemma {:induction false} StraddlingQueueBufferLost(out: Prps, sg: seq<Chunk>, size: nat, std: bool)
    requires PageMapped(sg, size) && size > 0 && Built(out, sg, size, true) && Distinct(out.dma)
    requires |out.list| == |out.dma| * PER_PAGE && Straddles(sg)
    ensures !Recovers(Walk(out, size, true, std), sg)
  {
    hide Offset;
    hide WalkList, IsLayout, Bytes, Range;
    var a, oft := sg[0].addr, Offset(sg[0].addr);
    var first := PAGE - oft;
    MappedStart(sg, size);
    EntriesFrom(a, sg[0].len, sg[1..], size, oft);
    var e := Entries(a, sg[0].len, sg[1..], size, oft).value;
    assert e[0] == a && e[1] == a + PAGE;
    SlotsOf(out.list, e, out.dma, 0, 0, 0);
    SlotsOf(out.list, e, out.dma, 1, 0, 1);
    WalkStep(out.list, out.dma, 0, 0, size, std);
    WalkStep(out.list, out.dma, 0, 1, size - first, std);
    var tail := WalkList(out.list, out.dma, out.dma[0], 2, size - first - Piece(e[1], size - first).len, std);
    if tail.Some? {
      SecondByte(Chunk(a, first), Piece(e[1], size - first), tail.value);
      ByteInside(sg, first);
    }
  }

  /** So for queue buffers the walk gives back the buffer exactly when it does not straddle. */
  lemma {:induction false} QueueBufferBoundary(out: Prps, sg: seq<Chunk>, size: nat)
    requires PageMapped(sg, size) && size > 0 && Built(out, sg, size, true) && Distinct(out.dma)
    requires |out.list| == |out.dma| * PER_PAGE
    ensures Recovers(Walk(out, size, true, false), sg) <==> !Straddles(sg)
  {
    if Straddles(sg) {
      StraddlingQueueBufferLost(out, sg, size, false);
    } else {
      WalkRecoversBuffer(out, sg, size, true);
    }
  }

  /** Two adjacent pages merged into one entry, with the buffer starting at offset 256. */
  lemma {:induction false} StraddlingExample()
    ensures var sg := [Chunk(0x10100, 5000)]; PageMapped(sg, 5000) && Straddles(sg)
  {
    assert [Chunk(0x10100, 5000)][1..] == [];
  }

  /** Byte number `first.len` of a walk is where its second piece starts. */
  lemma {:induction false} SecondByte(first: Chunk, second: Chunk, tail: seq<Chunk>)
    requires second.len > 0
    ensures var all := Bytes([first] + ([second] + tail));
            first.len < |all| && all[first.len] == second.addr
  {
    BytesCons(first, [second] + tail);
    BytesCons(second, tail);
  }

  lemma {:induction false} ByteInside(sg: seq<Chunk>, i: nat)
    requires sg != [] && i < sg[0].len
    ensures i < |Bytes(sg)| && Bytes(sg)[i] == sg[0].addr + i
  {
    BytesHead(sg);
  }

  /** Data entries the list holds; none if the two pointers are enough. */
  function ListEntries(size: nat, oft: nat, create: bool): nat
    requires oft < PAGE
  {
    DivRoundUp(ListSpan(size, oft, create), PAGE)
  }

  /** Is there one data entry more than a multiple of 511, so that the last stands alone on its page? */
  predicate LoneEntry(n: nat) {
    n > 1 && n % (PER_PAGE - 1) == 1
  }

  /**
   A controller following the standard agrees with the builder exactly when the list does not hold
   one data entry more than a multiple of 511: there the builder writes a link to a page with a
   single entry, which the standard reads as data. For queue buffers straddling is the other way to
   lose the buffer. List pages are page-aligned and are not part of the buffer.
   */
  lemma {:induction false} StandardWalkBoundary(out: Prps, sg: seq<Chunk>, size: nat, create: bool)
    requires PageMapped(sg, size) && size > 0 && Built(out, sg, size, create) && Distinct(out.dma)
    requires |out.list| == |out.dma| * PER_PAGE
    requires forall i :: 0 <= i < |out.dma| ==> Aligned(out.dma[i]) && out.dma[i] !in Bytes(sg)
    ensures Recovers(Walk(out, size, create, true), sg) <==>
            !(create && Straddles(sg)) && !LoneEntry(ListEntries(size, Offset(sg[0].addr), create))
  {
    hide Offset, Built, Walk, Recovers, Bytes;
    var oft := Offset(sg[0].addr);
    if create {
      if Straddles(sg) {
        StraddlingQueueBufferLost(out, sg, size, true);
      } else {
        QueueWalkBoundary(out, sg, size);
      }
    } else if LoneEntry(ListEntries(size, oft, false)) {
      NoLoneEntry();
      LoneEntryLost(out, sg, size);
    } else {
      SeveralEntries(size - (PAGE - oft));
      DirectWalk(out, sg, size, true);
    }
  }

  lemma {:induction false} NoLoneEntry()
    ensures !LoneEntry(DivRoundUp(0, PAGE))
  {
  }

  lemma {:induction false} SeveralEntries(rem: int)
    ensures rem > PAGE ==> DivRoundUp(rem, PAGE) > 1
  {
  }

  /** The boundary for queue buffers that do not straddle. */
  lemma {:induction false} QueueWalkBoundary(out: Prps, sg: seq<Chunk>, size: nat)
    requires PageMapped(sg, size) && size > 0 && Built(out, sg, size, true) && Distinct(out.dma) && !Straddles(sg)
    requires |out.list| == |out.dma| * PER_PAGE
    requires forall i :: 0 <= i < |out.dma| ==> Aligned(out.dma[i]) && out.dma[i] !in Bytes(sg)
    ensures Recovers(Walk(out, size, true, true), sg) <==> !LoneEntry(ListEntries(size, Offset(sg[0].addr), true))
  {
    hide Offset;
    hide Entries, Bytes, Exact, Range, IsLayout, WalkList, Pieces, Distinct, Mapped;
    var oft := Offset(sg[0].addr);
    MappedStart(sg, size);
    EntriesRecover(sg[0].addr, sg[0].len, sg[1..], size, oft);
    var e := Entries(sg[0].addr, sg[0].len, sg[1..], size, oft).value;
    assert |e| == ListEntries(size, oft, true);
    BytesHead(sg);
    if LoneEntry(|e|) {
      assert e[0..] == e;
      StdReadsLink(out.list, e, out.dma, 0, 0, 0, size);
    } else {
      WholeListWalk(out, e, size, true);
    }
  }

  lemma {:induction false} LoneEntryLost(out: Prps, sg: seq<Chunk>, size: nat)
    requires PageMapped(sg, size) && Built(out, sg, size, false) && Distinct(out.dma)
    requires |out.list| == |out.dma| * PER_PAGE && size > 2 * PAGE - Offset(sg[0].addr)
    requires forall i :: 0 <= i < |out.dma| ==> Aligned(out.dma[i]) && out.dma[i] !in Bytes(sg)
    requires DivRoundUp(size - (PAGE - Offset(sg[0].addr)), PAGE) % (PER_PAGE - 1) == 1
    ensures !Recovers(Walk(out, size, false, true), sg)
  {
    hide Offset;
    hide Entries, Bytes, Exact, Range, IsLayout, WalkList, Pieces, Distinct, Mapped;
    var oft := Offset(sg[0].addr);
    var rem := size - (PAGE - oft);
    MappedStart(sg, size);
    MappedAfterFirst(sg, size);
    var next := AfterFirstPage(sg);
    var rest := sg[next.at + 1..];
    EntriesRecover(next.addr, next.len, rest, rem, 0);
    var e := Entries(next.addr, next.len, rest, rem, 0).value;
    assert |e| == DivRoundUp(rem, PAGE) > 1;
    assert e[0..] == e;
    StdReadsLink(out.list, e, out.dma, 0, 0, 0, rem);
    var link := out.dma[|e| / (PER_PAGE - 1)];
    var walk := WalkList(out.list, out.dma, out.dma[0], 0, rem, true);
    var first := Chunk(sg[0].addr, PAGE - oft);
    BytesCons(first, walk.value);
    assert link in Bytes([first] + walk.value);
  }

  /** Walked by the standard, a list with a lone last entry yields the address of its last list page as data. */
  lemma {:induction false} StdReadsLink(list: seq<nat>, e: seq<nat>, dma: seq<nat>, m: nat, j: nat, k: nat, rem: nat)
    requires IsLayout(list, e, dma) && Distinct(dma) && j < |dma| && TailAligned(e)
    requires forall i :: 0 <= i < |dma| ==> Aligned(dma[i])
    requires Position(m, j, k) && m < |e| && Exact(e[m..], rem)
    requires |e| > 1 && |e| % (PER_PAGE - 1) == 1 && (m + 1 < |e| || k == PER_PAGE - 1)
    ensures |e| / (PER_PAGE - 1) < |dma|
    ensures var walk := WalkList(list, dma, dma[j], k, rem, true);
            walk.Some? && dma[|e| / (PER_PAGE - 1)] in Bytes(walk.value)
    decreases rem, if k == PER_PAGE - 1 then 1 else 0
  {
    hide Offset;
    hide Exact, Pieces, Find, IsLayout, SlotAt, WalkList, Distinct, Bytes;
    ExactStep(e[m..], rem);
    assert e[m..][1..] == e[m + 1..];
    SlotsOf(list, e, dma, m, j, k);
    WalkStep(list, dma, j, k, rem, true);
    if k == PER_PAGE - 1 {
      if m + 1 < |e| {
        ExactStep(e[m + 1..], rem - Piece(e[m], rem).len);
        assert Aligned(e[m]);
        StdReadsLink(list, e, dma, m, j + 1, 0, rem);
      } else {
        assert |e| / (PER_PAGE - 1) == j + 1;
        LoneEntrySize(e, m, rem);
        WalkNothing(list, dma, dma[j], k, true);
        var c := Chunk(dma[j + 1], rem);
        assert Piece(dma[j + 1], rem) == c;
        assert [c] + [] == [c];
        BytesOne(c);
        assert dma[j + 1] == Range(dma[j + 1], rem)[0];
      }
    } else {
      StdReadsLink(list, e, dma, m + 1, j, k + 1, rem - Piece(e[m], rem).len);
      BytesCons(Piece(e[m], rem), WalkList(list, dma, dma[j], k + 1, rem - Piece(e[m], rem).len, true).value);
    }
  }

  lemma {:induction false} LoneEntrySize(e: seq<nat>, m: nat, rem: nat)
    requires 0 < m == |e| - 1 && Exact(e[m..], rem) && TailAligned(e)
    ensures rem <= PAGE
  {
    ExactStep(e[m..], rem);
    ExactStep(e[m..][1..], rem - Piece(e[m], rem).len);
  }
}
