/**
 SGL segments of modules/dnvme/cmd.c and modules/dnvme/meta.c: the flat descriptor list is cut
 into pages, each full page ending in a descriptor for the next one. The partner is a walker
 that trusts nothing but the type and length of the segment descriptors it reads.
 */
module SglSegments {
  import opened Wrappers
  import opened Linux
  import opened Sequences
  import opened PrpList
  import opened SglDescriptors

  const SGES := 256
  const DESC_SIZE := 16

  datatype Desc =
    | Blank
    | Data(addr: nat, len: nat)
    | BitBucket(len: nat)
    | Segment(addr: nat, len: nat)
    | LastSegment(addr: nat, len: nat)

  predicate IsPayload(d: Desc) {
    d.Data? || d.BitBucket?
  }

  /** Descriptor for the segment at `dma`, of which `entries` descriptors are still to come. */
  function SetSeg(dma: nat, entries: nat): Desc {
    if entries < SGES then LastSegment(dma, entries * DESC_SIZE) else Segment(dma, PAGE)
  }

  function SetEntry(e: Entry): Desc {
    if e.addr != 0 then Data(e.addr, e.len) else BitBucket(e.len)
  }

  function NrSeg(nrDesc: nat): nat {
    DivRoundUp(DESC_SIZE * nrDesc, PAGE - DESC_SIZE)
  }

  // ----- filling the pages

  /** Content of position `q` of the pages that hold `list`, page 0 being the one at `dma[0]`. */
  function SlotOf(list: seq<Desc>, dma: seq<nat>, q: nat): Desc {
    var j, k := q / SGES, q % SGES;
    if k < SGES - 1 then
      if j * (SGES - 1) + k < |list| then list[j * (SGES - 1) + k] else Blank
    else if (j + 1) * (SGES - 1) < |list| && j + 1 < |dma| then SetSeg(dma[j + 1], |list| - (j + 1) * (SGES - 1))
    else Blank
  }

  ghost predicate IsSegments(pages: seq<Desc>, list: seq<Desc>, dma: seq<nat>) {
    && |pages| == |dma| * SGES && |list| <= |dma| * (SGES - 1)
    && forall q :: 0 <= q < |pages| ==> pages[q] == SlotOf(list, dma, q)
  }

  /**
   The fill loop shared by commands and metadata; it starts in page `first`, and earlier pages
   are left alone. Page `j` is `pages[j * SGES..]`.
   */
  method FillSegments(pages: array<Desc>, list: seq<Desc>, dma: seq<nat>, first: nat)
    requires first + NrSeg(|list|) <= |dma| && pages.Length == |dma| * SGES
    requires forall q :: first * SGES <= q < pages.Length ==> pages[q] == Blank
    modifies pages
    ensures forall q :: 0 <= q < first * SGES ==> pages[q] == old(pages[q])
    ensures IsSegments(pages[first * SGES..], list, dma[first..])
  {
    hide SlotOf, NrSeg;
    var nrDesc: nat := |list|;
    var j: nat, k: nat, m: nat := first, 0, 0;
    if nrDesc > 0 {
      EnoughPages(nrDesc, 0, 0);
    }
    while nrDesc > 0
      invariant first <= j && k < SGES && m == (j - first) * (SGES - 1) + k && m + nrDesc == |list|
      invariant nrDesc > 0 ==> j < |dma|
      invariant nrDesc == 0 && |list| > 0 ==> k > 0
      invariant forall q :: 0 <= q < first * SGES ==> pages[q] == old(pages[q])
      invariant forall q :: first * SGES <= q < pages.Length ==>
                  pages[q] == if q < j * SGES + k then SlotOf(list, dma[first..], q - first * SGES) else Blank
      decreases nrDesc, k
    {
      if k == SGES - 1 {
        EnoughPages(|list|, m, j - first + 1);
        LinkSlot(list, dma[first..], j - first);
        j := j + 1;
        pages[(j - 1) * SGES + k] := SetSeg(dma[j], nrDesc);
        k := 0;
      } else {
        EntrySlot(list, dma[first..], j - first, k);
        pages[j * SGES + k] := list[m];
        k := k + 1;
        m := m + 1;
        nrDesc := nrDesc - 1;
      }
    }
    SegmentsDone(pages[first * SGES..], list, dma[first..], j - first, k);
  }

  lemma {:induction false} EnoughPages(n: nat, m: nat, j: nat)
    requires m < n && m == j * (SGES - 1)
    ensures j < NrSeg(n)
  {
  }

  lemma {:induction false} PagesHoldAll(n: nat)
    ensures n <= NrSeg(n) * (SGES - 1)
  {
  }

  /** As many pages as hold `n` descriptors at 255 to a page, and not one more. */
  ghost predicate JustEnough(pages: nat, n: nat) {
    (pages - 1) * 255 < n <= pages * 255
  }

  lemma {:induction false} NoPageToSpare(n: nat)
    requires n > 0
    ensures JustEnough(NrSeg(n), n)
  {
  }

  lemma {:induction false} EntrySlot(list: seq<Desc>, dma: seq<nat>, j: nat, k: nat)
    requires k < SGES - 1 && j * (SGES - 1) + k < |list|
    ensures SlotOf(list, dma, j * SGES + k) == list[j * (SGES - 1) + k]
  {
  }

  lemma {:induction false} LinkSlot(list: seq<Desc>, dma: seq<nat>, j: nat)
    requires (j + 1) * (SGES - 1) < |list| && j + 1 < |dma|
    ensures SlotOf(list, dma, j * SGES + SGES - 1) == SetSeg(dma[j + 1], |list| - (j + 1) * (SGES - 1))
  {
  }

  lemma {:induction false} SegmentsDone(pages: seq<Desc>, list: seq<Desc>, dma: seq<nat>, j: nat, k: nat)
    requires |pages| == |dma| * SGES && k < SGES && |list| == j * (SGES - 1) + k && NrSeg(|list|) <= |dma|
    requires |list| > 0 ==> k > 0
    requires forall q :: 0 <= q < |pages| ==> pages[q] == if q < j * SGES + k then SlotOf(list, dma, q) else Blank
    ensures IsSegments(pages, list, dma)
  {
    PagesHoldAll(|list|);
    forall q | 0 <= q < |pages| ensures pages[q] == SlotOf(list, dma, q) {
      var j', k' := q / SGES, q % SGES;
      assert q == j' * SGES + k';
    }
  }

  // ----- walking

  /** The descriptors of the segment that `d` leads to: as many as its length says. */
  ghost function ReadSeg(pages: seq<Desc>, dma: seq<nat>, d: Desc): (seg: Option<seq<Desc>>)
    requires |pages| == |dma| * SGES
    ensures seg.Some? ==> seg.value != []
  {
    if !(d.Segment? || d.LastSegment?) then None
    else
      var j, n := Find(dma, d.addr), d.len / DESC_SIZE;
      if j == |dma| || d.len % DESC_SIZE != 0 || !(0 < n <= SGES) then None
      else Some(pages[j * SGES..j * SGES + n])
  }

  /**
   Follows a segment descriptor: in a last segment all descriptors are payload, in another one the
   last leads on. None for a malformed chain. `budget` bounds the segments followed.
   */
  ghost function WalkSeg(pages: seq<Desc>, dma: seq<nat>, d: Desc, budget: nat): Option<seq<Desc>>
    requires |pages| == |dma| * SGES
    decreases budget
  {
    var seg := ReadSeg(pages, dma, d);
    if budget == 0 || seg.None? then None
    else if d.LastSegment? then
      if AllPayload(seg.value) then seg else None
    else
      var n := |seg.value| - 1;
      var rest := WalkSeg(pages, dma, seg.value[n], budget - 1);
      if rest.None? || !AllPayload(seg.value[..n]) then None else Some(seg.value[..n] + rest.value)
  }

  /** Walks from the descriptor in the command: a lone payload descriptor, or a chain. */
  ghost function WalkFrom(pages: seq<Desc>, dma: seq<nat>, d: Desc): Option<seq<Desc>>
    requires |pages| == |dma| * SGES
  {
    if IsPayload(d) then Some([d]) else WalkSeg(pages, dma, d, |dma|)
  }

  ghost predicate AllPayload(list: seq<Desc>) {
    forall i :: 0 <= i < |list| ==> IsPayload(list[i])
  }

  /** From page `j` on, the chain yields the descriptors from there on, in order. */
  lemma {:induction false} ChainYieldsList(pages: seq<Desc>, list: seq<Desc>, dma: seq<nat>, j: nat, budget: nat)
    requires IsSegments(pages, list, dma) && AllPayload(list) && Distinct(dma)
    requires j * (SGES - 1) < |list| && j < |dma| <= budget + j
    ensures WalkSeg(pages, dma, SetSeg(dma[j], |list| - j * (SGES - 1)), budget) == Some(list[j * (SGES - 1)..])
    decreases budget
  {
    hide SlotOf, Find, ReadSeg;
    var left := |list| - j * (SGES - 1);
    var n := if left < SGES then left else SGES - 1;
    var seg := pages[j * SGES..j * SGES + n];
    forall i | 0 <= i < n ensures seg[i] == list[j * (SGES - 1) + i] {
      EntrySlot(list, dma, j, i);
    }
    SegmentAt(pages, dma, j, left);
    if left < SGES {
      assert seg == list[j * (SGES - 1)..];
    } else {
      LinkSlot(list, dma, j);
      ChainYieldsList(pages, list, dma, j + 1, budget - 1);
      var whole := pages[j * SGES..j * SGES + SGES];
      assert whole[..SGES - 1] == seg;
      assert seg + list[(j + 1) * (SGES - 1)..] == list[j * (SGES - 1)..];
    }
  }

  lemma {:induction false} SegmentAt(pages: seq<Desc>, dma: seq<nat>, j: nat, left: nat)
    requires |pages| == |dma| * SGES && Distinct(dma) && j < |dma| && left > 0
    ensures var n := if left < SGES then left else SGES;
            ReadSeg(pages, dma, SetSeg(dma[j], left)) == Some(pages[j * SGES..j * SGES + n])
  {
    hide Find;
    FindDistinct(dma, j);
  }

  // ----- commands and metadata

  function Descs(entries: seq<Entry>): (d: seq<Desc>)
    ensures |d| == |entries|
  {
    seq(|entries|, i requires 0 <= i < |entries| => SetEntry(entries[i]))
  }

  ghost predicate IsPermutation(a: seq<Bucket>, b: seq<Bucket>) {
    multiset(a) == multiset(b)
  }

  /** What one descriptor makes its reader do. */
  ghost function Meaning(list: seq<Desc>): seq<Event> {
    if list == [] then []
    else
      var d := list[|list| - 1];
      Meaning(list[..|list| - 1]) +
        (match d
         case Data(a, l) => DataEvents(a, l)
         case BitBucket(l) => [Hole(l)]
         case _ => [])
  }

  lemma {:induction false} MeaningOfEntries(entries: seq<Entry>)
    ensures AllPayload(Descs(entries)) && Meaning(Descs(entries)) == Trace(entries)
  {
    hide Descs, DataEvents;
    if entries == [] {
      assert Descs(entries) == [];
    } else {
      var n := |entries| - 1;
      MeaningOfEntries(entries[..n]);
      DescsLast(entries);
      EntryMeaning(entries[n]);
    }
  }

  lemma {:induction false} DescsLast(entries: seq<Entry>)
    requires entries != []
    ensures var n := |entries| - 1;
            Descs(entries) == Descs(entries[..n]) + [SetEntry(entries[n])] && Descs(entries)[..n] == Descs(entries[..n])
  {
  }

  lemma {:induction false} EntryMeaning(e: Entry)
    ensures IsPayload(SetEntry(e)) && Meaning([SetEntry(e)]) == Events(e)
  {
    hide DataEvents;
    assert [SetEntry(e)][..0] == [];
  }

  lemma {:induction false} Subslice(pages: seq<Desc>, k: nat, a: nat, n: nat)
    requires k + a + n <= |pages|
    ensures pages[k..][a..a + n] == pages[k + a..k + a + n]
  {
  }

  /**
   Sets up the SGL of a command. `numMapPgs` is the number of pages mapped, more than the scatter
   entries if mapping merged some; `bs` is the user's bucket array after sorting; `buckets` and
   `list` say whether the two scratch allocations are granted. On success walking from the
   command's descriptor touches exactly the bytes of the buffer, with the buckets at their offsets.
   */
  method CmdSetupSgl(sg: seq<Chunk>, numMapPgs: nat, user: seq<Bucket>, bs: seq<Bucket>, buckets: bool, list: bool, pool: Pool)
    returns (ret: int, cmd: Desc, pages: seq<Desc>, dma: seq<nat>)
    requires Scatter(sg) && sg != [] && |sg| <= numMapPgs && Sorted(bs) && IsPermutation(bs, user) && Separate(pool)
    ensures ret == 0 <==> (numMapPgs == 1 && user == []) ||
                          ((user == [] || buckets) && list && Listable(sg, numMapPgs, user) && Grants(pool, NrSeg(Count(sg, bs))))
    ensures ret == EPERM <==> !(numMapPgs == 1 && user == []) && (user == [] || buckets) && !(list && Listable(sg, numMapPgs, user))
    ensures ret == 0 || ret == EPERM || ret == ENOMEM
    ensures ret == 0 ==> if numMapPgs == 1 && user == [] then dma == [] else JustEnough(|dma|, Count(sg, bs))
    ensures ret == 0 ==>
              && |pages| == |dma| * SGES
              && var w := WalkFrom(pages, dma, cmd);
                 && w.Some? && |w.value| == Count(sg, bs)
                 && Spliced(Meaning(w.value), sg, bs) && multiset(Holes(Meaning(w.value), 0)) == multiset(user)
  {
    hide Acceptable, Weave, Bytes, Trace, Meaning, NrSeg, SlotOf, Count, WalkSeg, DataOf, Holes;
    pages, dma, cmd := [], [], Blank;
    SamePermutation(sg, bs, user);
    if numMapPgs == 1 && |bs| == 0 {
      cmd := Data(sg[0].addr, sg[0].len);
      LoneDescriptor(sg, bs);
      WeaveIsSpliced(sg, bs);
      return 0, cmd, pages, dma;
    }
    if |bs| > 0 && !buckets {
      return ENOMEM, cmd, pages, dma;
    }
    var nrDesc := numMapPgs;
    if |bs| > 0 {
      nrDesc := CountSglDescNum(sg, bs);
    }
    if |bs| == 0 {
      CountWithout(sg, bs);
    }
    var entries, filled := InitSglDescList(sg, bs, nrDesc, list);
    if entries.None? {
      return EPERM, cmd, pages, dma;
    }
    var descs := Descs(entries.value);
    MeaningOfEntries(entries.value);
    CountPositive(sg, bs);
    var nrSeg := NrSeg(nrDesc);
    NoPageToSpare(nrDesc);
    var taken, freed := TakePages(nrSeg, pool);
    if taken.None? {
      return ENOMEM, cmd, pages, dma;
    }
    dma := taken.value;
    var mem := new Desc[nrSeg * SGES](_ => Blank);
    cmd := SetSeg(dma[0], nrDesc);
    assert dma[0..] == dma;
    FillSegments(mem, descs, dma, 0);
    pages := mem[..];
    assert mem[0 * SGES..] == pages;
    ChainYieldsList(pages, descs, dma, 0, |dma|);
    assert descs[0 * (SGES - 1)..] == descs;
    ret := 0;
  }

  /** With buckets the descriptors are counted; without, there must be as many scatter entries as pages. */
  ghost predicate Listable(sg: seq<Chunk>, numMapPgs: nat, user: seq<Bucket>) {
    if user == [] then numMapPgs == |sg| else Acceptable(sg, user)
  }

  lemma {:induction false} CountWithout(sg: seq<Chunk>, bs: seq<Bucket>)
    requires bs == []
    ensures Count(sg, bs) == |sg| && Acceptable(sg, bs)
  {
  }

  lemma {:induction false} SamePermutation(sg: seq<Chunk>, bs: seq<Bucket>, user: seq<Bucket>)
    requires IsPermutation(bs, user)
    ensures Acceptable(sg, bs) <==> Acceptable(sg, user)
    ensures |bs| == |user| && (bs == [] <==> user == [])
  {
    hide Acceptable;
    assert |multiset(bs)| == |bs| && |multiset(user)| == |user|;
    if Acceptable(sg, bs) {
      AcceptablePermutes(sg, bs, user);
    }
    if Acceptable(sg, user) {
      AcceptablePermutes(sg, user, bs);
    }
  }

  lemma {:induction false} CountPositive(sg: seq<Chunk>, bs: seq<Bucket>)
    requires sg != []
    ensures Count(sg, bs) > 0
  {
  }

  lemma {:induction false} LoneDescriptor(sg: seq<Chunk>, bs: seq<Bucket>)
    requires Scatter(sg) && |sg| == 1 && bs == []
    ensures Acceptable(sg, bs) && Count(sg, bs) == 1
    ensures Meaning([Data(sg[0].addr, sg[0].len)]) == Weave(Bytes(sg), 0, bs)
  {
    var c := sg[0];
    assert Bytes(sg) == Range(c.addr, c.len) + [];
    WeaveData(c.addr, c.len, [], 0, bs);
    var d := [Data(c.addr, c.len)];
    assert d[..0] == [];
    assert Meaning(d) == DataEvents(c.addr, c.len);
  }

  /**
   Metadata buffers: one data descriptor in page 0, or there a descriptor for the chain in the
   pages after it.
   */
  method MetaSetupSgl(sg: seq<Chunk>, pool: Pool) returns (ret: int, pages: seq<Desc>, dma: seq<nat>)
    requires sg != [] && Separate(pool)
    ensures ret == 0 || ret == ENOMEM
    ensures ret == 0 <==> Grants(pool, if |sg| == 1 then 1 else NrSeg(|sg|) + 1)
    ensures ret == 0 ==> |pages| == |dma| * SGES && dma != [] && pool.page(0) == Some(dma[0])
    ensures ret == 0 ==> if |sg| == 1 then |dma| == 1 else JustEnough(|dma| - 1, |sg|)
    ensures ret == 0 ==>
              WalkFrom(pages, dma, pages[0]) == Some(seq(|sg|, i requires 0 <= i < |sg| => Data(sg[i].addr, sg[i].len)))
  {
    hide NrSeg, SlotOf, WalkSeg;
    var nrDesc := |sg|;
    var list := seq(|sg|, i requires 0 <= i < |sg| => Data(sg[i].addr, sg[i].len));
    var nrSeg := if nrDesc == 1 then 1 else NrSeg(nrDesc) + 1;
    NoPageToSpare(nrDesc);
    ret, pages, dma := 0, [], [];
    var taken, freed := TakePages(nrSeg, pool);
    if taken.None? {
      return ENOMEM, pages, dma;
    }
    dma := taken.value;
    var mem := new Desc[nrSeg * SGES](_ => Blank);
    if nrDesc == 1 {
      mem[0] := Data(sg[0].addr, sg[0].len);
      pages := mem[..];
      assert list == [pages[0]];
      return;
    }
    mem[0] := SetSeg(dma[1], nrDesc);
    FillSegments(mem, list, dma, 1);
    pages := mem[..];
    assert pages[SGES..] == mem[1 * SGES..];
    ChainYieldsList(pages[SGES..], list, dma[1..], 0, |dma|);
    assert list[0 * (SGES - 1)..] == list;
    SkipFirstPage(pages, dma, pages[0], |dma|);
  }

  /** A chain that lives in the later pages is walked the same with the first page in view. */
  lemma {:induction false} SkipFirstPage(pages: seq<Desc>, dma: seq<nat>, d: Desc, budget: nat)
    requires |pages| == |dma| * SGES && dma != [] && Distinct(dma)
    requires WalkSeg(pages[SGES..], dma[1..], d, budget).Some?
    ensures WalkSeg(pages, dma, d, budget) == WalkSeg(pages[SGES..], dma[1..], d, budget)
    decreases budget
  {
    hide ReadSeg;
    ReadPastFirst(pages, dma, d);
    var seg := ReadSeg(pages, dma, d).value;
    if d.Segment? {
      SkipFirstPage(pages, dma, seg[|seg| - 1], budget - 1);
    }
  }

  lemma {:induction false} ReadPastFirst(pages: seq<Desc>, dma: seq<nat>, d: Desc)
    requires |pages| == |dma| * SGES && dma != [] && Distinct(dma)
    requires ReadSeg(pages[SGES..], dma[1..], d).Some?
    ensures ReadSeg(pages, dma, d) == ReadSeg(pages[SGES..], dma[1..], d)
    ensures d.Segment? || d.LastSegment?
  {
    hide Find;
    var j, n := Find(dma[1..], d.addr), d.len / DESC_SIZE;
    assert dma[1..][j] == dma[j + 1];
    FindDistinct(dma, j + 1);
    assert (j + 1) * SGES == SGES + j * SGES;
    Subslice(pages, SGES, j * SGES, n);
  }
}
