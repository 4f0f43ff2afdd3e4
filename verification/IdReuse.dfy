/**
 A run in which a command id comes round while its first command is still outstanding: one command,
 then submits that fail after drawing an id, then a second command with the same id. When the second
 completes, it is the first one's node that goes.
 */
module IdReuse {
  import opened Linux
  import opened Ring
  import opened Sequences
  import opened SubmissionQueue
  import opened QueueProtocol
  import C = CompletionQueue

  const First := Command(0, 1)
  const Second := Command(0, 2)
  const Empty := Command(0, 0)

  /** A queue of four slots and the completion queue, both new. */
  ghost function NewQueue(): Sub {
    Sub(Sq([Empty, Empty, Empty, Empty], 0, 0, 0, 0, []), 0, [], 0, [], [], 0, [], 0, [], [])
  }

  ghost function NewCq(): C.System {
    var clear := C.Cqe(false, C.Completion(0, 0, 0, 0));
    C.System([clear, clear, clear, clear], 0, true, 0, 0, true, [], [], 0)
  }

  /** After the first command and `k` failed submits. */
  ghost function Drawing(k: nat): Sub {
    Sub(Sq([First, Empty, Empty, Empty], 0, 0, 1, (1 + k) % U16, [Node(0, 0)]),
        0, [First], 0, [], [0], 1 + k, [], 0, [0], [0])
  }

  /** After the second command has been submitted and announced; `fetched` of the two have been read. */
  ghost function Both(rung: nat, fetched: nat): Sub
    requires fetched <= 2
  {
    Sub(Sq([First, Second, Empty, Empty], 0, rung, 2, 1, [Node(0, 0), Node(0, 1)]),
        fetched, [First, Second], rung, [First, Second][..fetched], [0, U16], U16 + 1, [], 0, [0, 1], [0, 1])
  }

  ghost function Finished(): Sub {
    Both(2, 2).(tickets := [Ticket(1, 2)])
  }

  /** The node left is that of the second command, though it is the first that is outstanding. */
  ghost function Reaped1(): Sub {
    Finished().(sq := Finished().sq.(head := 2, nodes := [Node(0, 1)]), retired := 1, live := [0], held := [1])
  }

  ghost function Posted(inquired: nat): C.System {
    var clear := C.Cqe(false, C.Completion(0, 0, 0, 0));
    C.System([C.Cqe(true, C.Completion(0, 2, 0, 0)), clear, clear, clear], 0, true, 0, 1, true,
             [C.Completion(0, 2, 0, 0)], [], inquired)
  }

  ghost function ReapedCq(): C.System {
    Posted(0).(head := 1, doorbell := 1, reaped := [C.Completion(0, 2, 0, 0)])
  }

  ghost function State(u: Sub, cq: C.System, origin: seq<nat>): System {
    System([u], cq, origin)
  }

  ghost function Quiet(u: Sub): System {
    State(u, NewCq(), [])
  }

  lemma {:induction false} SubmitFirst()
    ensures Takes(Quiet(NewQueue()), SubmitCmd(0, 1, Accepted), Quiet(Drawing(0)))
  {
    var u := NewQueue();
    assert u.sq.slots[0 := First] == [First, Empty, Empty, Empty];
    assert DoSubmit(u, 1, Accepted) == Drawing(0);
    assert [u][0 := Drawing(0)] == [Drawing(0)];
  }

  lemma {:induction false} DrawOne(k: nat)
    ensures Takes(Quiet(Drawing(k)), SubmitCmd(0, 0, FailsEarly(EFAULT)), Quiet(Drawing(k + 1)))
  {
    NextSerial(1 + k);
    assert DoSubmit(Drawing(k), 0, FailsEarly(EFAULT)) == Drawing(k + 1);
    assert [Drawing(k)][0 := Drawing(k + 1)] == [Drawing(k + 1)];
  }

  lemma {:induction false} SubmitSecond()
    ensures Takes(Quiet(Drawing(U16 - 1)), SubmitCmd(0, 2, Accepted), Quiet(Both(0, 0)))
  {
    var u := Drawing(U16 - 1);
    assert u.sq.nextCid == 0;
    assert u.sq.slots[1 := Second] == [First, Second, Empty, Empty];
    assert DoSubmit(u, 2, Accepted) == Both(0, 0);
    assert [u][0 := Both(0, 0)] == [Both(0, 0)];
  }

  lemma {:induction false} Announce()
    ensures Takes(Quiet(Both(0, 0)), QueueProtocol.Ring(0), Quiet(Both(2, 0)))
  {
    assert DoRing(Both(0, 0)) == Both(2, 0);
    assert [Both(0, 0)][0 := Both(2, 0)] == [Both(2, 0)];
  }

  lemma {:induction false} FetchNext(f: nat)
    requires f < 2
    ensures Takes(Quiet(Both(2, f)), Fetch(0), Quiet(Both(2, f + 1)))
  {
    var both := [First, Second];
    assert both[..f + 1] == both[..f] + [both[f]];
    assert DoFetch(Both(2, f)) == Both(2, f + 1);
    assert [Both(2, f)][0 := Both(2, f + 1)] == [Both(2, f + 1)];
  }

  lemma {:induction false} FinishSecond()
    ensures Takes(Quiet(Both(2, 2)), Finish(0, 1, 0), State(Finished(), Posted(0), [0]))
  {
    var s, u := Quiet(Both(2, 2)), Both(2, 2);
    assert [First, Second][..2] == [First, Second];
    assert DoFinish(u, 1) == Finished();
    assert Entry(u, 0, 1, 0) == C.Completion(0, 2, 0, 0);
    assert C.Next(s.cq, C.Post(Entry(u, 0, 1, 0))) == Posted(0);
    assert [u][0 := Finished()] == [Finished()];
  }

  lemma {:induction false} Ask()
    ensures Takes(State(Finished(), Posted(0), [0]), Inquire, State(Finished(), Posted(1), [0]))
  {
    var cq := Posted(0);
    var c := C.Cursor(0, true);
    assert C.Advance(c, 4) == C.Cursor(1, true);
    assert !C.Fresh(cq.buf, C.Cursor(1, true));
    assert C.Scan(cq.buf, C.Cursor(1, true), 3) == 0;
    assert C.Scan(cq.buf, c, 4) == 1;
    assert C.Remain(cq.buf, cq.head, cq.phase) == 1;
  }

  lemma {:induction false} ReapSecond()
    ensures Takes(State(Finished(), Posted(1), [0]), Reap(1), State(Reaped1(), ReapedCq(), [0]))
  {
    hide HandleAll, C.Next, C.Window, C.Bodies, Reaped1, Finished, ReapedCq;
    WindowIsBody();
    HandledBatch();
    ReapEntry();
  }

  lemma {:induction false} WindowIsBody()
    ensures C.Bodies(C.Window(Posted(1).buf, Posted(1).head, 1)) == [C.Completion(0, 2, 0, 0)]
  {
    var window := C.Window(Posted(1).buf, Posted(1).head, 1);
    assert Slot(0 + 0, 4) == 0;
    assert |window| == 1 && window[0] == Posted(1).buf[0];
    var bodies := C.Bodies(window);
    assert |bodies| == 1 && bodies[0] == C.Completion(0, 2, 0, 0);
  }

  lemma {:induction false} RetiredFirst()
    ensures Retire(Finished(), C.Completion(0, 2, 0, 0)) == Reaped1()
    ensures Complete(Finished().sq, C.Completion(0, 2, 0, 0)).1 == 0
  {
    var u := Finished();
    assert Find(u.sq.nodes, 0) == 0;
    assert PositionOf([0, 1], 1) == 1;
    assert Without(u.sq.nodes, 0) == [Node(0, 1)] && Without([0, 1], 0) == [1] && Without([0, 1], 1) == [0];
  }

  lemma {:induction false} HandledBatch()
    ensures HandleAll([Finished()], [C.Completion(0, 2, 0, 0)]) == ([Reaped1()], [0])
  {
    hide Retire, Complete, Reaped1, Finished;
    var u, body := Finished(), C.Completion(0, 2, 0, 0);
    RetiredFirst();
    assert [u][0 := Reaped1()] == [Reaped1()];
    assert HandleOne([u], body) == ([Reaped1()], 0);
    assert [body][1..] == [];
    assert HandleAll([Reaped1()], []) == ([Reaped1()], []);
    assert [0] + [] == [0];
  }

  lemma {:induction false} ReapEntry()
    ensures C.Enabled(Posted(1), C.Reap(1, [0])) && C.Next(Posted(1), C.Reap(1, [0])) == ReapedCq()
  {
    assert C.Handled([0], 1) == 1;
    WindowIsBody();
    assert Slot(0 + 1, 4) == 1;
  }

  /**
   The run: at its end the first command is outstanding, and the only node is the second one's,
   which has completed.
   */
  lemma {:induction false} ReusedIdTakesWrongNode() returns (states: seq<System>, steps: seq<Step>)
    ensures Run(states, steps)
    ensures |states[|steps|].subs| == 1
    ensures var u := states[|steps|].subs[0];
            && u.live == [0] && u.submitted == [First, Second]
            && u.sq.nodes == [Node(Second.cid, 1)] && !Own(u)
  {
    hide Takes, Quiet, State;
    SubmitFirst();
    SubmitSecond();
    Announce();
    FetchNext(0);
    FetchNext(1);
    FinishSecond();
    Ask();
    ReapSecond();
    var draws := seq(U16, k requires 0 <= k < U16 => Quiet(Drawing(k)));
    var end := [Quiet(Both(0, 0)), Quiet(Both(2, 0)), Quiet(Both(2, 1)), Quiet(Both(2, 2)),
                State(Finished(), Posted(0), [0]), State(Finished(), Posted(1), [0]), State(Reaped1(), ReapedCq(), [0])];
    states := [Quiet(NewQueue())] + draws + end;
    steps := [SubmitCmd(0, 1, Accepted)] + seq(U16 - 1, _ => SubmitCmd(0, 0, FailsEarly(EFAULT))) +
             [SubmitCmd(0, 2, Accepted), QueueProtocol.Ring(0), Fetch(0), Fetch(0), Finish(0, 1, 0), Inquire, Reap(1)];
    StartsNew();
    forall i | 0 <= i < |steps| ensures Takes(states[i], steps[i], states[i + 1]) {
      if 0 < i < U16 {
        DrawOne(i - 1);
      }
    }
    LastState();
  }

  lemma {:induction false} StartsNew()
    ensures Init(Quiet(NewQueue()))
  {
  }

  lemma {:induction false} LastState()
    ensures State(Reaped1(), ReapedCq(), [0]).subs == [Reaped1()]
  {
  }
}
