/**
 The completion queue of modules/dnvme/queue.c: the phase-bit scan, the reap loop and the
 head update, run against a controller that obeys the full-queue and phase-tag rules.
 */
module CompletionQueue {
  import opened Ring
  import opened Linux
  import Bits

  /** What the controller reports in one completion entry, apart from the phase tag. */
  datatype Completion = Completion(sqId: nat, sqHead: nat, commandId: nat, status: nat)

  datatype Cqe = Cqe(phase: bool, body: Completion)

  // ----- the phase-bit scan

  /** Where the scan looks next, and the phase it expects there. */
  datatype Cursor = Cursor(tail: nat, phase: bool)

  /** One iteration of the scan. `tail_ptr` is a 16-bit field. */
  function Advance(c: Cursor, elements: nat): Cursor {
    var tail := (c.tail + 1) % U16;
    if tail >= elements then Cursor(0, !c.phase) else Cursor(tail, c.phase)
  }

  function After(c: Cursor, elements: nat, k: nat): Cursor {
    if k == 0 then c else Advance(After(c, elements, k - 1), elements)
  }

  lemma {:induction false} NextCursor(c: Cursor, elements: nat, k: nat)
    ensures After(c, elements, k + 1) == Advance(After(c, elements, k), elements)
  {
  }

  predicate Fresh(buf: seq<Cqe>, c: Cursor) {
    c.tail < |buf| && buf[c.tail].phase == c.phase
  }

  /** Number of consecutive fresh entries seen from `c`, looking at no more than `budget`. */
  function Scan(buf: seq<Cqe>, c: Cursor, budget: nat): nat
    decreases budget
  {
    if budget == 0 || !Fresh(buf, c) then 0 else 1 + Scan(buf, Advance(c, |buf|), budget - 1)
  }

  /** What an inquiry reports for fixed buffer contents. */
  function Remain(buf: seq<Cqe>, head: nat, phase: bool): nat {
    Scan(buf, Cursor(head, phase), |buf|)
  }

  /** Closed form of the cursor, for queues whose size fits the 16-bit tail. */
  lemma {:induction false} CursorWithinOnePass(c: Cursor, elements: nat, k: nat)
    requires 0 < elements < U16 && c.tail < elements && k <= elements
    ensures After(c, elements, k) ==
            if c.tail + k < elements then Cursor(c.tail + k, c.phase)
            else Cursor(c.tail + k - elements, !c.phase)
  {
    if k > 0 {
      CursorWithinOnePass(c, elements, k - 1);
    }
  }

  lemma {:induction false} AfterShift(c: Cursor, elements: nat, k: nat)
    ensures After(Advance(c, elements), elements, k) == After(c, elements, k + 1)
  {
    if k > 0 {
      AfterShift(c, elements, k - 1);
    }
  }

  /** The result of a bounded scan is determined by where freshness first fails. */
  lemma {:induction false} ScanIs(buf: seq<Cqe>, c: Cursor, budget: nat, r: nat)
    requires r <= budget
    requires forall k: nat :: k < r ==> Fresh(buf, After(c, |buf|, k))
    requires r < budget ==> !Fresh(buf, After(c, |buf|, r))
    ensures Scan(buf, c, budget) == r
    decreases budget
  {
    if r > 0 {
      assert After(c, |buf|, 0) == c;
      forall k: nat | k < r ensures After(Advance(c, |buf|), |buf|, k) == After(c, |buf|, k + 1) {
        AfterShift(c, |buf|, k);
      }
      AfterShift(c, |buf|, r - 1);
      ScanIs(buf, Advance(c, |buf|), budget - 1, r - 1);
    }
  }

  /** After a whole pass the scan is back where it began with the opposite phase, so it stops. */
  lemma {:induction false} ScanStopsWithinOnePass(buf: seq<Cqe>, head: nat, phase: bool)
    requires 0 < |buf| < U16 && head < |buf|
    ensures exists k: nat :: k <= |buf| && !Fresh(buf, After(Cursor(head, phase), |buf|, k))
  {
    var c := Cursor(head, phase);
    CursorWithinOnePass(c, |buf|, |buf|);
    assert After(c, |buf|, 0) == c;
    if Fresh(buf, After(c, |buf|, 0)) {
      assert !Fresh(buf, After(c, |buf|, |buf|));
    }
  }

  /** From 65536 elements on, the 16-bit tail wraps before it can reach `elements`. */
  lemma {:induction false} WideCursor(c: Cursor, elements: nat, k: nat)
    requires elements >= U16 && c.tail < U16
    ensures After(c, elements, k) == Cursor((c.tail + k) % U16, c.phase)
  {
    if k > 0 {
      WideCursor(c, elements, k - 1);
    }
  }

  /** So there the scan never ends exactly when all the entries it can reach carry its phase. */
  lemma {:induction false} WideScanDiverges(buf: seq<Cqe>, head: nat, phase: bool)
    requires |buf| >= U16 && head < U16
    ensures (forall k: nat :: Fresh(buf, After(Cursor(head, phase), |buf|, k))) <==>
            (forall s: nat :: s < U16 ==> buf[s].phase == phase)
  {
    var c := Cursor(head, phase);
    if forall k: nat :: Fresh(buf, After(c, |buf|, k)) {
      forall s: nat | s < U16 ensures buf[s].phase == phase {
        var k := (s - head) % U16;
        WideCursor(c, |buf|, k);
        assert Fresh(buf, After(c, |buf|, k));
      }
    } else {
      var k: nat :| !Fresh(buf, After(c, |buf|, k));
      WideCursor(c, |buf|, k);
    }
  }

  // ----- reaping

  /** The `k` entries starting at slot `head`, going round the ring. */
  function Window(buf: seq<Cqe>, head: nat, k: nat): (w: seq<Cqe>)
    requires 0 < |buf|
  {
    seq(k, (i: nat) => buf[Slot(head + i, |buf|)])
  }

  /** Entries reaped when completion `i` is handled with result `verdicts[i]`: a failing one is the last. */
  function Handled(verdicts: seq<int>, want: nat): (n: nat)
    requires want <= |verdicts|
    ensures n <= want
    ensures forall i :: 0 <= i < n - 1 ==> verdicts[i] == 0
    ensures n < want ==> 0 < n && verdicts[n - 1] != 0
    ensures want > 0 ==> n > 0
  {
    if want == 0 then 0
    else if verdicts[0] != 0 then 1
    else 1 + Handled(verdicts[1..], want - 1)
  }

  lemma {:induction false} HandledStep(verdicts: seq<int>, want: nat, i: nat)
    requires i < want <= |verdicts|
    requires forall j :: 0 <= j < i ==> verdicts[j] == 0
    ensures verdicts[i] != 0 ==> Handled(verdicts, want) == i + 1
    ensures i + 1 == want ==> Handled(verdicts, want) == want
  {
    if i > 0 {
      HandledStep(verdicts[1..], want - 1, i - 1);
    }
  }

  function HeadAfter(head: nat, n: nat, elements: nat): nat
    requires 0 < elements
  {
    Slot(head + n, elements)
  }

  function PhaseAfter(head: nat, phase: bool, n: nat, elements: nat): bool {
    if head + n >= elements then !phase else phase
  }

  class Queue {
    const elements: nat
    const cqes: nat
    const buf: array<Cqe>
    var head: nat
    var tail: nat
    var phase: bool
    var doorbell: nat

    ghost predicate Valid()
      reads this
    {
      0 < elements < U16 && buf.Length == elements && head < elements
    }

    constructor (elements: nat, cqes: nat)
      requires 0 < elements < U16
      ensures Valid() && this.elements == elements && this.cqes == cqes && fresh(buf)
      ensures head == tail == doorbell == 0 && phase
      ensures forall i :: 0 <= i < elements ==> !buf[i].phase
    {
      this.elements := elements;
      this.cqes := cqes;
      head, tail, doorbell, phase := 0, 0, 0, true;
      buf := new Cqe[elements](_ => Cqe(false, Completion(0, 0, 0, 0)));
    }

    /** Counts the entries waiting to be reaped, leaving the tail one past the last of them. */
    method GetCqeRemain() returns (remain: nat)
      requires Valid()
      modifies this`tail
      ensures remain == Remain(buf[..], head, phase) <= elements
      ensures tail == After(Cursor(head, phase), elements, remain).tail
      ensures !Fresh(buf[..], After(Cursor(head, phase), elements, remain))
    {
      remain := 0;
      var expected := phase;
      ghost var start, contents := Cursor(head, phase), buf[..];
      tail := head;
      CursorWithinOnePass(start, elements, elements);
      while buf[tail].phase == expected
        invariant tail < elements && remain <= elements
        invariant remain > 0 ==> buf[head].phase == phase
        invariant After(start, elements, remain) == Cursor(tail, expected)
        invariant forall k: nat :: k < remain ==> Fresh(contents, After(start, elements, k))
        decreases elements - remain
      {
        hide After;
        NextCursor(start, elements, remain);
        remain := remain + 1;
        tail := (tail + 1) % U16;
        if tail >= elements {
          expected := !expected;
          tail := 0;
        }
      }
      ScanIs(contents, start, elements, remain);
    }

    /** Copies out up to `nrReap` entries, stopping after the first whose handling fails. */
    method CopyCqData(nrReap: nat, verdicts: seq<int>) returns (left: nat, copied: seq<Cqe>, ret: int)
      requires Valid()
      requires nrReap <= |verdicts|
      ensures left == nrReap - Handled(verdicts, nrReap)
      ensures copied == Window(buf[..], head, nrReap - left)
      ensures ret != 0 ==> left < nrReap && ret == verdicts[nrReap - left - 1]
      ensures left > 0 ==> ret != 0
      ensures ret == 0 <==> forall i :: 0 <= i < nrReap ==> verdicts[i] == 0
    {
      hide Slot, Pass;
      left, copied, ret := nrReap, [], 0;
      var at := head;
      SmallSlot(head, elements);
      assert nrReap > 0 || Handled(verdicts, nrReap) == 0;
      while left > 0
        invariant left <= nrReap && ret == 0
        invariant at == Slot(head + (nrReap - left), elements)
        invariant copied == Window(buf[..], head, nrReap - left)
        invariant forall j :: 0 <= j < nrReap - left ==> verdicts[j] == 0
        invariant left == 0 ==> Handled(verdicts, nrReap) == nrReap
      {
        ghost var done := nrReap - left;
        HandledStep(verdicts, nrReap, done);
        var latentErr := verdicts[nrReap - left];
        assert Window(buf[..], head, done + 1) == Window(buf[..], head, done) + [buf[at]];
        copied := copied + [buf[at]];
        Forward(head + done, 1, elements);
        at := at + 1;
        left := left - 1;
        if at >= elements {
          at := 0;
        }
        if latentErr != 0 {
          ret := latentErr;
          return;
        }
      }
    }

    /** Moves the head past the reaped entries, flips the phase on a wrap and rings the doorbell. */
    method UpdateCqHead(numReaped: nat)
      requires Valid()
      modifies this`head, this`phase, this`doorbell
      ensures Valid()
      ensures head == HeadAfter(old(head), numReaped, elements) == doorbell
      ensures phase == PhaseAfter(old(head), old(phase), numReaped, elements)
    {
      hide Slot;
      var h := head + numReaped;
      if h >= elements {
        phase := !phase;
        h := Slot(h, elements);
      } else {
        SmallSlot(h, elements);
      }
      head := h % U16;
      doorbell := head;
    }

    /**
     Reaps `want` entries. The size the buffer must have is computed in 32 bits. When interrupts are
     on for this queue and nothing is left, `quiet` tells to reset its fired flag and unmask it.
     */
    method ReapCqe(want: nat, userBuf: bool, size: nat, verdicts: seq<int>, irqs: bool)
      returns (status: int, copied: seq<Cqe>, quiet: bool)
      requires Valid()
      requires want <= |verdicts|
      modifies this`head, this`phase, this`doorbell, this`tail
      ensures Valid()
      ensures status < 0 <==> want == 0 || !userBuf || size < want * Bits.Power(cqes) % U32
      ensures want == 0 ==> status == EINVAL
      ensures want > 0 && !userBuf ==> status == EFAULT
      ensures want > 0 && userBuf && size < want * Bits.Power(cqes) % U32 ==> status == ENOMEM
      ensures status < 0 ==> copied == [] && !quiet && head == old(head) && phase == old(phase) && doorbell == old(doorbell)
      ensures status >= 0 ==>
                && status == Handled(verdicts, want)
                && copied == Window(buf[..], old(head), status)
                && head == HeadAfter(old(head), status, elements) == doorbell
                && phase == PhaseAfter(old(head), old(phase), status, elements)
                && tail == After(Cursor(head, phase), elements, Remain(buf[..], head, phase)).tail
                && (quiet <==> irqs && Remain(buf[..], head, phase) == 0)
    {
      if want == 0 {
        return EINVAL, [], false;
      }
      if !userBuf {
        return EFAULT, [], false;
      }
      if size < want * Bits.Power(cqes) % U32 {
        return ENOMEM, [], false;
      }
      var left, ret;
      left, copied, ret := CopyCqData(want, verdicts);
      var reaped := want - left;
      if reaped > 0 {
        UpdateCqHead(reaped);
      }
      var remain := GetCqeRemain();
      quiet := irqs && remain == 0;
      status := reaped;
    }
  }

  // ----- the host and the controller together

  /**
   The whole system around one queue. The controller keeps its own tail and phase and sees the
   host only through the doorbell. `posted`, `reaped` and `inquired` are the history: everything
   the controller wrote, everything the host copied out, and what an inquiry since the last reap
   reported.
   */
  datatype System = System(
    buf: seq<Cqe>,
    head: nat, phase: bool, doorbell: nat,
    ctrlTail: nat, ctrlPhase: bool,
    posted: seq<Completion>, reaped: seq<Completion>, inquired: nat)

  datatype Step =
    | Post(body: Completion)
    | Inquire
    | Reap(want: nat, verdicts: seq<int>)

  /** A new queue of any size, in cleared memory. */
  ghost predicate Start(s: System) {
    && 0 < |s.buf|
    && (forall i :: 0 <= i < |s.buf| ==> !s.buf[i].phase)
    && s.head == s.doorbell == s.ctrlTail == s.inquired == 0
    && s.phase && s.ctrlPhase
    && s.posted == s.reaped == []
  }

  ghost predicate Init(s: System) {
    Start(s) && |s.buf| < U16
  }

  /**
   The controller posts only while one slot stays free (full-queue rule), and the host reaps
   no more than an earlier inquiry found.
   */
  ghost predicate Enabled(s: System, step: Step)
    requires 0 < |s.buf|
  {
    match step
    case Post(_) => Slot(s.ctrlTail + 1, |s.buf|) != s.doorbell
    case Inquire => true
    case Reap(want, verdicts) => 0 < want <= s.inquired && want <= |verdicts|
  }

  function Bodies(w: seq<Cqe>): seq<Completion> {
    seq(|w|, i requires 0 <= i < |w| => w[i].body)
  }

  ghost function Next(s: System, step: Step): System
    requires 0 < |s.buf| && s.ctrlTail < |s.buf| && Enabled(s, step)
  {
    match step
    case Post(body) =>
      var n := |s.buf|;
      s.(buf := s.buf[s.ctrlTail := Cqe(s.ctrlPhase, body)],
         ctrlTail := if s.ctrlTail + 1 == n then 0 else s.ctrlTail + 1,
         ctrlPhase := if s.ctrlTail + 1 == n then !s.ctrlPhase else s.ctrlPhase,
         posted := s.posted + [body])
    case Inquire =>
      s.(inquired := Remain(s.buf, s.head, s.phase))
    case Reap(want, verdicts) =>
      var k := Handled(verdicts, want);
      s.(head := HeadAfter(s.head, k, |s.buf|),
         doorbell := HeadAfter(s.head, k, |s.buf|),
         phase := PhaseAfter(s.head, s.phase, k, |s.buf|),
         reaped := s.reaped + Bodies(Window(s.buf, s.head, k)),
         inquired := 0)
  }

  /** The phase tag of position `x`: set on even passes, clear on odd ones. */
  predicate Tag(x: int, n: nat)
    requires 0 < n
  {
    Pass(x, n) % 2 == 0
  }

  /** Slot of position `j` still holds what was written there last; before position 0 that is the zeroed buffer. */
  predicate Holds(s: System, j: int)
    requires 0 < |s.buf| && j < |s.posted|
  {
    var n := |s.buf|;
    s.buf[Slot(j, n)].phase == Tag(j, n) && (j >= 0 ==> s.buf[Slot(j, n)].body == s.posted[j])
  }

  ghost predicate Inv(s: System) {
    var n, p, r := |s.buf|, |s.posted|, |s.reaped|;
    && 0 < n < U16
    && r <= p < r + n
    && s.ctrlTail == Slot(p, n) && s.ctrlPhase == Tag(p, n)
    && s.head == s.doorbell == Slot(r, n) && s.phase == Tag(r, n)
    && s.reaped == s.posted[..r]
    && (forall j :: p - n <= j < p ==> Holds(s, j))
    && s.inquired <= p - r
  }

  lemma {:induction false} InitInv(s: System)
    requires Init(s)
    ensures Inv(s)
  {
    hide Slot, Pass;
    var n := |s.buf|;
    SmallSlot(0, n);
    forall j | -n <= j < 0 ensures Holds(s, j) {
      SmallSlot(j, n);
    }
  }

  /** The scan's `k`-th cursor is the slot and tag of position `reaped + k`. */
  lemma {:induction false} CursorAt(s: System, k: nat)
    requires Inv(s) && k <= |s.buf|
    ensures After(Cursor(s.head, s.phase), |s.buf|, k) ==
            Cursor(Slot(|s.reaped| + k, |s.buf|), Tag(|s.reaped| + k, |s.buf|))
  {
    hide Slot, Pass;
    CursorWithinOnePass(Cursor(s.head, s.phase), |s.buf|, k);
    Forward(|s.reaped|, k, |s.buf|);
  }

  lemma {:induction false} TagsAlternate(x: int, n: nat)
    requires 0 < n
    ensures Tag(x - n, n) != Tag(x, n)
  {
    hide Slot, Pass;
    PassBack(x, n);
    var q := Pass(x, n);
    assert ((q - 1) % 2 == 0) != (q % 2 == 0);
  }

  /** The slot to be written next still carries the previous pass's tag. */
  lemma {:induction false} StaleAtTail(s: System)
    requires Inv(s)
    ensures s.buf[Slot(|s.posted|, |s.buf|)].phase != Tag(|s.posted|, |s.buf|)
  {
    hide Slot, Pass;
    var n, p := |s.buf|, |s.posted|;
    assert Holds(s, p - n);
    PassBack(p, n);
    TagsAlternate(p, n);
  }

  /** The scan sees exactly the entries posted and not yet reaped. */
  lemma {:induction false} RemainIsOutstanding(s: System)
    requires Inv(s)
    ensures Remain(s.buf, s.head, s.phase) == |s.posted| - |s.reaped|
  {
    hide Slot, Pass;
    var n, p, r := |s.buf|, |s.posted|, |s.reaped|;
    var c := Cursor(s.head, s.phase);
    forall k: nat | k < p - r ensures Fresh(s.buf, After(c, n, k)) {
      CursorAt(s, k);
      assert Holds(s, r + k);
    }
    CursorAt(s, p - r);
    StaleAtTail(s);
    ScanIs(s.buf, c, n, p - r);
  }

  /** Obeying the doorbell keeps one slot of the ring free. */
  lemma {:induction false} RoomForPost(s: System)
    requires Inv(s) && Slot(s.ctrlTail + 1, |s.buf|) != s.doorbell
    ensures |s.posted| + 1 < |s.reaped| + |s.buf|
  {
    hide Slot, Pass;
    var n, p := |s.buf|, |s.posted|;
    Forward(p, 1, n);
    SmallSlot(s.ctrlTail + 1, n);
    PassBack(p + 1, n);
  }

  lemma {:induction false} PostInv(s: System, body: Completion)
    requires Inv(s) && Enabled(s, Post(body))
    ensures Inv(Next(s, Post(body)))
  {
    hide Slot, Pass;
    var n, p, r := |s.buf|, |s.posted|, |s.reaped|;
    var t := Next(s, Post(body));
    Forward(p, 1, n);
    RoomForPost(s);
    forall j | p + 1 - n <= j < p + 1 ensures Holds(t, j) {
      if j < p {
        assert Holds(s, j);
        SlotsDiffer(j, p, n);
      }
    }
    assert t.reaped == t.posted[..r];
  }

  /** The next `k` entries of the ring are the next `k` posted ones. */
  lemma {:induction false} WindowIsPosted(s: System, k: nat)
    requires Inv(s) && k <= |s.posted| - |s.reaped|
    ensures Bodies(Window(s.buf, s.head, k)) == s.posted[|s.reaped|..|s.reaped| + k]
  {
    hide Slot, Pass;
    var n, r := |s.buf|, |s.reaped|;
    var w := Bodies(Window(s.buf, s.head, k));
    forall i | 0 <= i < k ensures w[i] == s.posted[r + i] {
      assert Holds(s, r + i);
      Forward(r, i, n);
      SmallSlot(s.head + i, n);
    }
  }

  lemma {:induction false} ReapInv(s: System, want: nat, verdicts: seq<int>)
    requires Inv(s) && Enabled(s, Reap(want, verdicts))
    ensures Inv(Next(s, Reap(want, verdicts)))
  {
    hide Slot, Pass;
    var n, p, r := |s.buf|, |s.posted|, |s.reaped|;
    var k := Handled(verdicts, want);
    var t := Next(s, Reap(want, verdicts));
    Forward(r, k, n);
    SmallSlot(s.head + k, n);
    WindowIsPosted(s, k);
    assert t.reaped == s.posted[..r + k];
    forall j | p - n <= j < p ensures Holds(t, j) {
      assert Holds(s, j);
    }
  }

  lemma {:induction false} StepInv(s: System, step: Step)
    requires Inv(s) && Enabled(s, step)
    ensures Inv(Next(s, step))
  {
    hide Slot, Pass;
    match step
    case Post(body) => PostInv(s, body);
    case Inquire =>
      RemainIsOutstanding(s);
      var t := Next(s, step);
      forall j | |s.posted| - |s.buf| <= j < |s.posted| ensures Holds(t, j) {
        assert Holds(s, j);
      }
    case Reap(want, verdicts) => ReapInv(s, want, verdicts);
  }

  ghost predicate InRange(s: System) {
    0 < |s.buf| && s.ctrlTail < |s.buf|
  }

  /** One step of a run. */
  ghost predicate Takes(s: System, step: Step, t: System) {
    InRange(s) ==> Enabled(s, step) && t == Next(s, step)
  }

  /** A run: a start state and any interleaving of enabled steps. */
  ghost predicate RunFrom(states: seq<System>, steps: seq<Step>) {
    && |states| == |steps| + 1
    && Start(states[0])
    && forall i :: 0 <= i < |steps| ==> Takes(states[i], steps[i], states[i + 1])
  }

  /** A run of a queue whose size fits the 16-bit tail. */
  ghost predicate Run(states: seq<System>, steps: seq<Step>) {
    RunFrom(states, steps) && |states[0].buf| < U16
  }

  lemma {:induction false} InvInRange(s: System)
    requires Inv(s)
    ensures InRange(s)
  {
  }

  lemma {:induction false} RunInv(states: seq<System>, steps: seq<Step>, i: nat)
    requires Run(states, steps) && i < |states|
    ensures Inv(states[i])
  {
    if i == 0 {
      InitInv(states[0]);
    } else {
      RunInv(states, steps, i - 1);
      InvInRange(states[i - 1]);
      assert Takes(states[i - 1], steps[i - 1], states[i - 1 + 1]);
      StepInv(states[i - 1], steps[i - 1]);
    }
  }

  /**
   In every run, over any number of wraps, the completions copied out are a prefix of those
   posted, and the scan reports exactly the rest.
   */
  lemma {:induction false} ReapedIsPrefixOfPosted(states: seq<System>, steps: seq<Step>, i: nat)
    requires Run(states, steps) && i < |states|
    ensures states[i].reaped <= states[i].posted
    ensures Remain(states[i].buf, states[i].head, states[i].phase) == |states[i].posted| - |states[i].reaped| < |states[i].buf|
  {
    RunInv(states, steps, i);
    RemainIsOutstanding(states[i]);
  }

  /** A reap of `k` entries in a reachable state yields posted entries exactly when `k` are outstanding. */
  lemma {:induction false} ReapBoundIsExact(states: seq<System>, steps: seq<Step>, i: nat, k: nat)
    requires Run(states, steps) && i < |states|
    ensures 0 < |states[i].buf|
    ensures states[i].reaped + Bodies(Window(states[i].buf, states[i].head, k)) <= states[i].posted
            <==> k <= Remain(states[i].buf, states[i].head, states[i].phase)
  {
    hide Slot, Pass;
    ReapedIsPrefixOfPosted(states, steps, i);
    RunInv(states, steps, i);
    var s := states[i];
    if 0 < k <= Remain(s.buf, s.head, s.phase) {
      var t := s.(inquired := Remain(s.buf, s.head, s.phase));
      StepInv(s, Inquire);
      var zeros := seq(k, _ => 0);
      assert Handled(zeros, k) == k by {
        HandledStep(zeros, k, k - 1);
      }
      ReapInv(t, k, zeros);
    }
  }

  // ----- a run that reaches an endless scan

  /** The state of a 65536-element queue after `k` posts, when nothing has been reaped. */
  ghost function Filling(body: Completion, k: nat): System
    requires k < U16
  {
    System(seq(U16, i => if 0 <= i < k then Cqe(true, body) else Cqe(false, Completion(0, 0, 0, 0))),
           0, true, 0, k, true, seq(k, _ => body), [], 0)
  }

  lemma {:induction false} FillOne(body: Completion, k: nat)
    requires k + 1 < U16
    ensures Enabled(Filling(body, k), Post(body))
    ensures Next(Filling(body, k), Post(body)) == Filling(body, k + 1)
  {
    var t, u := Next(Filling(body, k), Post(body)), Filling(body, k + 1);
    assert t.buf == u.buf;
    assert t.posted == u.posted;
  }

  lemma {:induction false} FilledRemain(body: Completion)
    ensures var s := Filling(body, U16 - 1); Remain(s.buf, s.head, s.phase) == U16 - 1
  {
    var s := Filling(body, U16 - 1);
    forall k: nat | k < U16 ensures After(Cursor(0, true), U16, k) == Cursor(k, true) {
      WideCursor(Cursor(0, true), U16, k);
    }
    ScanIs(s.buf, Cursor(0, true), U16, U16 - 1);
  }

  /**
   A run of a 65536-element queue that keeps every rule ends in a state whose scan never ends: 65535
   posts, an inquiry, a reap of one entry, and one more post.
   */
  lemma {:induction false} WideRunDiverges(body: Completion) returns (states: seq<System>, steps: seq<Step>)
    ensures RunFrom(states, steps) && |states[0].buf| == U16 && forall i :: 0 <= i < |states| ==> InRange(states[i])
    ensures var s := states[|steps|];
            |s.buf| == U16 && s.head < U16 && forall k: nat :: Fresh(s.buf, After(Cursor(s.head, s.phase), |s.buf|, k))
  {
    hide Remain, Handled;
    var full := Filling(body, U16 - 1);
    FilledRemain(body);
    var asked := Next(full, Inquire);
    assert Handled([0], 1) == 1;
    var one := Next(asked, Reap(1, [0]));
    var last := Next(one, Post(body));
    assert forall i :: 0 <= i < U16 ==> last.buf[i].phase;
    WideScanDiverges(last.buf, last.head, last.phase);
    var fill := seq(U16, k requires 0 <= k < U16 => Filling(body, k));
    states := fill + [asked, one, last];
    steps := seq(U16 - 1, _ => Post(body)) + [Inquire, Reap(1, [0]), Post(body)];
    forall i | 0 <= i < |steps|
      ensures Takes(states[i], steps[i], states[i + 1])
    {
      if i < U16 - 1 {
        FillOne(body, i);
      }
    }
  }
}
