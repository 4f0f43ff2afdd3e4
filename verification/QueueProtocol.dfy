/**
 Any number of submission queues sharing one completion queue, driven by the host and by a
 controller that fetches in order, completes in any order and obeys the full-queue rule.
 */
module QueueProtocol {
  import opened Ring
  import opened Linux
  import opened Sequences
  import opened SubmissionQueue
  import C = CompletionQueue

  /** A completion the controller has produced: which command, and how many it had fetched by then. */
  datatype Ticket = Ticket(index: nat, fetchedAt: nat)

  /**
   One submission queue with the controller's side and its history: all commands accepted, how
   many the doorbell has announced, what the controller read, the serial number of each command
   id drawn, the completions produced, how many of them the host has handled, the indices of the
   commands not handled yet, and the indices of those the driver still keeps a node for.
   */
  datatype Sub = Sub(
    sq: Sq, ctrlHead: nat,
    submitted: seq<Command>, rung: nat, fetched: seq<Command>,
    serials: seq<nat>, drawn: nat,
    tickets: seq<Ticket>, retired: nat,
    live: seq<nat>, held: seq<nat>)

  /** How far the host knows the controller has read. */
  ghost function Known(u: Sub): nat
    requires u.retired <= |u.tickets|
  {
    if u.retired == 0 then 0 else u.tickets[u.retired - 1].fetchedAt
  }

  // ----- invariant of one submission queue

  ghost predicate RingInv(u: Sub) {
    var n, s, f := |u.sq.slots|, |u.submitted|, |u.fetched|;
    && 0 < n <= U16
    && u.retired <= |u.tickets|
    && Known(u) <= f <= u.rung <= s < Known(u) + n
    && u.sq.head == Slot(Known(u), n)
    && u.ctrlHead == Slot(f, n)
    && u.sq.tail == Slot(u.rung, n)
    && u.sq.tailVirt == Slot(s, n)
    && (forall i :: Known(u) <= i < s ==> u.sq.slots[Slot(i, n)] == u.submitted[i])
    && u.fetched == u.submitted[..f]
  }

  ghost predicate TicketInv(u: Sub) {
    && (forall i :: 0 <= i < |u.tickets| ==> u.tickets[i].index < u.tickets[i].fetchedAt <= |u.fetched|)
    && (forall i, j :: 0 <= i < j < |u.tickets| ==> u.tickets[i].fetchedAt <= u.tickets[j].fetchedAt)
    && (forall i, j :: 0 <= i < j < |u.tickets| ==> u.tickets[i].index != u.tickets[j].index)
  }

  ghost predicate Retired(u: Sub, i: nat)
    requires u.retired <= |u.tickets|
  {
    exists j :: 0 <= j < u.retired && u.tickets[j].index == i
  }

  ghost predicate Increasing(s: seq<nat>) {
    forall j, k :: 0 <= j < k < |s| ==> s[j] < s[k]
  }

  ghost predicate Below(s: seq<nat>, bound: nat) {
    forall k :: 0 <= k < |s| ==> s[k] < bound
  }

  /** The nodes of the commands with the given indices. */
  ghost function NodesFor(submitted: seq<Command>, n: nat, live: seq<nat>): (nodes: seq<Node>)
    requires 0 < n && Below(live, |submitted|)
  {
    seq(|live|, k requires 0 <= k < |live| => Node(submitted[live[k]].cid, Slot(live[k], n)))
  }

  /** The ids of the commands with the given indices. */
  ghost function Ids(submitted: seq<Command>, live: seq<nat>): (ids: seq<nat>)
    requires Below(live, |submitted|)
    ensures |ids| == |live| && forall k :: 0 <= k < |live| ==> ids[k] == submitted[live[k]].cid
  {
    seq(|live|, k requires 0 <= k < |live| => submitted[live[k]].cid)
  }

  /** The live commands are those not handled, in submission order. */
  ghost predicate LiveInv(u: Sub) {
    && u.retired <= |u.tickets|
    && Increasing(u.live)
    && (forall i: nat :: i in u.live <==> i < |u.submitted| && !Retired(u, i))
    && Below(u.live, |u.submitted|)
  }

  /** Every node is that of a submitted command, in submission order, and the nodes have the ids of the live commands. */
  ghost predicate NodeInv(u: Sub) {
    && LiveInv(u)
    && 0 < |u.sq.slots| && Increasing(u.held) && Below(u.held, |u.submitted|)
    && u.sq.nodes == NodesFor(u.submitted, |u.sq.slots|, u.held)
    && multiset(Ids(u.submitted, u.held)) == multiset(Ids(u.submitted, u.live))
  }

  /** Ids are serial numbers modulo 2^16. */
  ghost predicate CidInv(u: Sub) {
    && u.sq.nextCid == u.drawn % U16
    && |u.serials| == |u.submitted|
    && (forall i :: 0 <= i < |u.serials| ==> u.serials[i] < u.drawn && u.submitted[i].cid == u.serials[i] % U16)
    && (forall i, j :: 0 <= i < j < |u.serials| ==> u.serials[i] < u.serials[j])
  }

  ghost predicate SubInv(u: Sub) {
    RingInv(u) && TicketInv(u) && NodeInv(u) && CidInv(u)
  }

  ghost predicate SubInit(u: Sub) {
    && 0 < |u.sq.slots| <= U16
    && u.sq.head == u.sq.tail == u.sq.tailVirt == u.sq.nextCid == 0 && u.sq.nodes == []
    && u.ctrlHead == u.rung == u.drawn == u.retired == 0
    && u.submitted == u.fetched == [] && u.serials == u.live == u.held == [] && u.tickets == []
  }

  // ----- steps on one submission queue

  ghost function DoSubmit(u: Sub, data: int, outcome: Outcome): Sub
    requires 0 < |u.sq.slots| && u.sq.tailVirt < |u.sq.slots|
  {
    var (sq, ret) := Submit(u.sq, data, outcome);
    if IsFull(u.sq) then u.(sq := sq)
    else
      match outcome
      case FailsFirst(_) => u.(sq := sq)
      case FailsEarly(_) => u.(sq := sq, drawn := u.drawn + 1)
      case FailsPreparing(_) => u.(sq := sq)
      case Accepted =>
        u.(sq := sq, drawn := u.drawn + 1,
           submitted := u.submitted + [Command(u.sq.nextCid, data)],
           serials := u.serials + [u.drawn],
           live := u.live + [|u.submitted|],
           held := u.held + [|u.submitted|])
  }

  ghost function DoRing(u: Sub): Sub {
    u.(sq := RingDoorbell(u.sq), rung := |u.submitted|)
  }

  /** The controller reads the slot at its own head; it sees the host only through the doorbell. */
  ghost function DoFetch(u: Sub): Sub
    requires u.ctrlHead < |u.sq.slots| && u.ctrlHead != u.sq.tail
  {
    u.(ctrlHead := if u.ctrlHead + 1 == |u.sq.slots| then 0 else u.ctrlHead + 1,
       fetched := u.fetched + [u.sq.slots[u.ctrlHead]])
  }

  ghost predicate CanFinish(u: Sub, index: nat) {
    index < |u.fetched| && forall j :: 0 <= j < |u.tickets| ==> u.tickets[j].index != index
  }

  ghost function DoFinish(u: Sub, index: nat): Sub {
    u.(tickets := u.tickets + [Ticket(index, |u.fetched|)])
  }

  /** The completion entry a controller writes for a ticket of queue `q`. */
  ghost predicate Reports(body: C.Completion, u: Sub, q: nat, k: nat) {
    && 0 < |u.sq.slots|
    && k < |u.tickets| && u.tickets[k].index < |u.submitted|
    && body.sqId == q
    && body.sqHead == Slot(u.tickets[k].fetchedAt, |u.sq.slots|)
    && body.commandId == u.submitted[u.tickets[k].index].cid
  }

  // ----- preservation, one queue at a time

  lemma {:induction false} SubInitInv(u: Sub)
    requires SubInit(u)
    ensures SubInv(u)
  {
    hide Slot, Pass;
    SmallSlot(0, |u.sq.slots|);
  }

  /** The slot a submit writes holds no command between the known head and the virtual tail. */
  lemma {:induction false} SubmitWritesFreeSlot(u: Sub)
    requires RingInv(u) && !IsFull(u.sq)
    ensures |u.submitted| + 1 < Known(u) + |u.sq.slots|
    ensures forall i :: Known(u) <= i < |u.submitted| ==> Slot(i, |u.sq.slots|) != u.sq.tailVirt
  {
    hide Slot, Pass;
    var n, s := |u.sq.slots|, |u.submitted|;
    Forward(s, 1, n);
    SmallSlot(u.sq.tailVirt + 1, n);
    PassBack(s + 1, n);
    forall i | Known(u) <= i < s ensures Slot(i, n) != u.sq.tailVirt {
      SlotsDiffer(i, s, n);
    }
  }

  lemma {:induction false} SubmitRing(u: Sub, data: int)
    requires RingInv(u) && !IsFull(u.sq)
    ensures RingInv(DoSubmit(u, data, Accepted))
  {
    hide Slot, Pass;
    var n, s := |u.sq.slots|, |u.submitted|;
    var v := DoSubmit(u, data, Accepted);
    SubmitWritesFreeSlot(u);
    assert v.sq.tailVirt == Slot(s + 1, n) by {
      Forward(s, 1, n);
      SmallSlot(u.sq.tailVirt + 1, n);
    }
    assert Known(v) == Known(u);
    forall i | Known(v) <= i < s + 1 ensures v.sq.slots[Slot(i, n)] == v.submitted[i] {
    }
  }

  lemma {:induction false} SubmitLive(u: Sub, data: int)
    requires RingInv(u) && TicketInv(u) && LiveInv(u) && !IsFull(u.sq)
    ensures LiveInv(DoSubmit(u, data, Accepted))
  {
    hide Slot, Pass;
    var v := DoSubmit(u, data, Accepted);
    forall i: nat ensures i in v.live <==> i < |v.submitted| && !Retired(v, i) {
      assert Retired(v, i) == Retired(u, i);
      assert i in v.live <==> i in u.live || i == |u.submitted|;
    }
  }

  lemma {:induction false} IdsPush(submitted: seq<Command>, c: Command, live: seq<nat>)
    requires Below(live, |submitted|)
    ensures Below(live + [|submitted|], |submitted + [c]|)
    ensures Ids(submitted + [c], live + [|submitted|]) == Ids(submitted, live) + [c.cid]
  {
  }

  lemma {:induction false} SubmitNodes(u: Sub, data: int)
    requires RingInv(u) && TicketInv(u) && NodeInv(u) && !IsFull(u.sq)
    ensures NodeInv(DoSubmit(u, data, Accepted))
  {
    hide Slot, Pass, LiveInv, Ids;
    var v, c := DoSubmit(u, data, Accepted), Command(u.sq.nextCid, data);
    SubmitLive(u, data);
    LiveBelow(u);
    IdsPush(u.submitted, c, u.live);
    IdsPush(u.submitted, c, u.held);
    assert v.sq.nodes == NodesFor(v.submitted, |v.sq.slots|, v.held);
  }

  lemma {:induction false} LiveBelow(u: Sub)
    requires LiveInv(u)
    ensures Below(u.live, |u.submitted|)
  {
  }

  lemma {:induction false} NextSerial(x: nat)
    ensures (x % U16 + 1) % U16 == (x + 1) % U16
    ensures ((x % U16 + 1) % U16 + U16 - 1) % U16 == x % U16
  {
  }

  lemma {:induction false} SubmitCids(u: Sub, data: int)
    requires CidInv(u)
    requires 0 < |u.sq.slots| && u.sq.tailVirt < |u.sq.slots| && !IsFull(u.sq)
    ensures CidInv(DoSubmit(u, data, Accepted))
  {
    NextSerial(u.drawn);
  }

  lemma {:induction false} SubmitRefused(u: Sub, data: int, outcome: Outcome)
    requires SubInv(u) && (IsFull(u.sq) || !outcome.Accepted?)
    ensures SubInv(DoSubmit(u, data, outcome))
  {
    hide Slot, Pass, TicketInv, NodeInv;
    NextSerial(u.drawn);
    OnlyCidChanges(u, DoSubmit(u, data, outcome));
  }

  lemma {:induction false} SubmitTickets(u: Sub, data: int)
    requires TicketInv(u) && 0 < |u.sq.slots| && u.sq.tailVirt < |u.sq.slots|
    ensures TicketInv(DoSubmit(u, data, Accepted))
  {
  }

  lemma {:induction false} RingSizes(u: Sub)
    requires RingInv(u)
    ensures 0 < |u.sq.slots| && u.sq.tailVirt < |u.sq.slots|
  {
  }

  lemma {:induction false} SubmitInv(u: Sub, data: int, outcome: Outcome)
    requires SubInv(u)
    ensures SubInv(DoSubmit(u, data, outcome))
  {
    hide Slot, Pass, RingInv, TicketInv, NodeInv, CidInv;
    RingSizes(u);
    if !IsFull(u.sq) && outcome.Accepted? {
      SubmitRing(u, data);
      SubmitNodes(u, data);
      SubmitCids(u, data);
      SubmitTickets(u, data);
    } else {
      SubmitRefused(u, data, outcome);
    }
  }

  /** Nothing the nodes depend on has changed. */
  lemma {:induction false} SameNodes(u: Sub, v: Sub)
    requires NodeInv(u) && u.retired <= |v.tickets| && v.tickets[..u.retired] == u.tickets[..u.retired] && v.retired == u.retired
    requires v.live == u.live && v.held == u.held && v.submitted == u.submitted
    requires v.sq.nodes == u.sq.nodes && |v.sq.slots| == |u.sq.slots|
    ensures NodeInv(v)
  {
    hide Slot, Pass, Ids, NodesFor;
    forall i: nat ensures Retired(v, i) == Retired(u, i) {
      assert forall j :: 0 <= j < u.retired ==> v.tickets[..u.retired][j] == u.tickets[..u.retired][j];
    }
  }

  lemma {:induction false} OnlyCidChanges(u: Sub, v: Sub)
    requires SubInv(u)
    requires v == u.(drawn := v.drawn, sq := u.sq.(nextCid := v.sq.nextCid))
    requires CidInv(v)
    ensures SubInv(v)
  {
    hide Slot, Pass, NodeInv;
    SameNodes(u, v);
  }

  lemma {:induction false} RingDoorbellInv(u: Sub)
    requires SubInv(u)
    ensures SubInv(DoRing(u))
  {
    hide Slot, Pass, NodeInv;
    SameNodes(u, DoRing(u));
  }

  lemma {:induction false} FetchRing(u: Sub)
    requires RingInv(u) && u.ctrlHead != u.sq.tail
    ensures RingInv(DoFetch(u))
  {
    hide Slot, Pass;
    Forward(|u.fetched|, 1, |u.sq.slots|);
    assert Known(DoFetch(u)) == Known(u);
  }

  lemma {:induction false} FetchInv(u: Sub)
    requires SubInv(u) && u.ctrlHead != u.sq.tail
    ensures SubInv(DoFetch(u))
  {
    hide Slot, Pass, Known, NodeInv;
    FetchRing(u);
    SameNodes(u, DoFetch(u));
  }

  lemma {:induction false} FinishTickets(u: Sub, index: nat)
    requires TicketInv(u) && CanFinish(u, index)
    ensures TicketInv(DoFinish(u, index))
  {
  }

  lemma {:induction false} FinishInv(u: Sub, index: nat)
    requires SubInv(u) && CanFinish(u, index)
    ensures SubInv(DoFinish(u, index))
  {
    hide Slot, Pass, NodeInv;
    var v := DoFinish(u, index);
    FinishTickets(u, index);
    assert v.tickets[..u.retired] == u.tickets[..u.retired];
    SameNodes(u, v);
    assert Known(v) == Known(u);
  }

  // ----- ids

  /** Live commands `j` and `k` have the same id exactly when a multiple of 2^16 draws lies between them. */
  lemma {:induction false} SameIdIff(u: Sub, j: nat, k: nat)
    requires CidInv(u) && LiveInv(u) && j < k < |u.live|
    ensures u.live[k] < |u.submitted| == |u.serials|
    ensures Ids(u.submitted, u.live)[j] == Ids(u.submitted, u.live)[k] <==>
            (u.serials[u.live[k]] - u.serials[u.live[j]]) % U16 == 0
  {
  }

  /** The id drawn next is that of a live command exactly when a multiple of 2^16 draws lies between them. */
  lemma {:induction false} NextCidCollides(u: Sub, k: nat)
    requires CidInv(u) && LiveInv(u) && k < |u.live|
    ensures u.live[k] < |u.serials|
    ensures Ids(u.submitted, u.live)[k] == u.sq.nextCid <==> (u.drawn - u.serials[u.live[k]]) % U16 == 0
  {
  }

  /** No live command has seen more than 2^16 - 1 later draws of an id. */
  ghost predicate Young(u: Sub) {
    forall i :: i in u.live && i < |u.serials| ==> u.drawn - u.serials[i] <= U16
  }

  /** The live commands have different ids. */
  ghost predicate DistinctIds(u: Sub)
    requires Below(u.live, |u.submitted|)
  {
    Distinct(Ids(u.submitted, u.live))
  }

  lemma {:induction false} CidsDistinct(u: Sub)
    requires CidInv(u) && LiveInv(u) && Young(u)
    ensures DistinctIds(u)
  {
    forall j, k | 0 <= j < k < |u.live| ensures Ids(u.submitted, u.live)[j] != Ids(u.submitted, u.live)[k] {
      assert u.live[j] in u.live && u.live[k] in u.live;
      var a, b := u.serials[u.live[j]], u.serials[u.live[k]];
      assert a < b < u.drawn <= a + U16;
      SlotsDiffer(a, b, U16);
    }
  }

  // ----- completions

  /** The next completion finds a node with its id, whatever the ids of the others. */
  lemma {:induction false} CompleteInv(u: Sub, q: nat, body: C.Completion)
    requires SubInv(u) && u.retired < |u.tickets|
    requires Reports(body, u, q, u.retired)
    ensures Complete(u.sq, body).1 == 0
    ensures SubInv(Retire(u, body))
  {
    hide Slot, Pass, TicketInv, LiveInv, CidInv, Ids, NodesFor;
    var p := LiveTicket(u);
    FindsNode(u, p);
    RetireRing(u, body);
    RetireNodes(u, body, p);
    RetireRest(u, body);
  }

  lemma {:induction false} RetireRest(u: Sub, body: C.Completion)
    requires TicketInv(u) && CidInv(u)
    ensures TicketInv(Retire(u, body)) && CidInv(Retire(u, body))
  {
  }

  /** The next completion to be handled belongs to a command that is still live. */
  lemma {:induction false} LiveTicket(u: Sub) returns (p: nat)
    requires TicketInv(u) && LiveInv(u) && u.retired < |u.tickets| && |u.fetched| <= |u.submitted|
    ensures p < |u.live| && u.live[p] == u.tickets[u.retired].index < |u.submitted|
    ensures PositionOf(u.live, u.tickets[u.retired].index) == p
  {
    var t := u.tickets[u.retired];
    assert !Retired(u, t.index);
    assert t.index in u.live;
    p := PositionOf(u.live, t.index);
  }

  /** Where `x` stands, or the length if nowhere. */
  ghost function PositionOf(s: seq<nat>, x: nat): (p: nat)
    ensures p <= |s| && (p < |s| ==> s[p] == x) && (x in s ==> p < |s|)
  {
    FirstWith(s, y => y == x)
  }

  /** A live command's id is among those of the nodes. */
  lemma {:induction false} FindsNode(u: Sub, p: nat)
    requires NodeInv(u) && p < |u.live|
    ensures |u.sq.nodes| == |u.held| && u.live[p] < |u.submitted|
    ensures var k := Find(u.sq.nodes, u.submitted[u.live[p]].cid);
            k < |u.held| && u.submitted[u.held[k]].cid == u.submitted[u.live[p]].cid
  {
    hide Slot;
    var id, ids := u.submitted[u.live[p]].cid, Ids(u.submitted, u.held);
    assert Ids(u.submitted, u.live)[p] == id;
    assert id in multiset(Ids(u.submitted, u.live));
    assert id in ids;
    var j :| 0 <= j < |ids| && ids[j] == id;
    assert u.sq.nodes[j].cid == id;
  }

  ghost function Retire(u: Sub, body: C.Completion): Sub {
    var k := Find(u.sq.nodes, body.commandId);
    var p := if u.retired < |u.tickets| then PositionOf(u.live, u.tickets[u.retired].index) else |u.live|;
    u.(sq := Complete(u.sq, body).0, retired := u.retired + 1,
       live := if p < |u.live| then Without(u.live, p) else u.live,
       held := if k < |u.held| then Without(u.held, k) else u.held)
  }

  lemma {:induction false} RetireRing(u: Sub, body: C.Completion)
    requires RingInv(u) && TicketInv(u) && u.retired < |u.tickets|
    requires body.sqHead == Slot(u.tickets[u.retired].fetchedAt, |u.sq.slots|)
    ensures RingInv(Retire(u, body))
  {
    hide Slot, Pass;
    assert Known(u) <= Known(Retire(u, body));
  }

  lemma {:induction false} RetireNodes(u: Sub, body: C.Completion, p: nat)
    requires NodeInv(u) && u.retired < |u.tickets| && p < |u.live|
    requires u.live[p] == u.tickets[u.retired].index < |u.submitted| && PositionOf(u.live, u.live[p]) == p
    requires body.commandId == u.submitted[u.live[p]].cid
    ensures NodeInv(Retire(u, body))
  {
    hide Slot, Pass;
    hide Without, Retired, NodesFor, Ids, LiveInv, Find;
    FindsNode(u, p);
    LiveBelow(u);
    LiveIncreasing(u);
    var k := Find(u.sq.nodes, body.commandId);
    RetireLive(u, body, p);
    WithoutNodes(u.submitted, |u.sq.slots|, u.held, k);
    WithoutIds(u.submitted, u.held, k);
    WithoutIds(u.submitted, u.live, p);
  }

  lemma {:induction false} LiveIncreasing(u: Sub)
    requires LiveInv(u)
    ensures Increasing(u.live)
  {
  }

  lemma {:induction false} WithoutNodes(submitted: seq<Command>, n: nat, live: seq<nat>, p: nat)
    requires 0 < n && Below(live, |submitted|) && Increasing(live) && p < |live|
    ensures Below(Without(live, p), |submitted|) && Increasing(Without(live, p))
    ensures |NodesFor(submitted, n, live)| == |live|
    ensures NodesFor(submitted, n, Without(live, p)) == Without(NodesFor(submitted, n, live), p)
  {
  }

  /** Leaving out a command takes one of its id out of the ids. */
  lemma {:induction false} WithoutIds(submitted: seq<Command>, live: seq<nat>, p: nat)
    requires Below(live, |submitted|) && p < |live|
    ensures Below(Without(live, p), |submitted|)
    ensures multiset(Ids(submitted, Without(live, p))) == multiset(Ids(submitted, live)) - multiset{submitted[live[p]].cid}
  {
    var ids := Ids(submitted, live);
    assert Ids(submitted, Without(live, p)) == ids[..p] + ids[p + 1..];
    assert ids == ids[..p] + [ids[p]] + ids[p + 1..];
  }

  lemma {:induction false} RetireLive(u: Sub, body: C.Completion, p: nat)
    requires LiveInv(u) && u.retired < |u.tickets| && p < |u.live|
    requires u.live[p] == u.tickets[u.retired].index && PositionOf(u.live, u.live[p]) == p
    ensures LiveInv(Retire(u, body))
  {
    hide PositionOf, Find;
    var v := Retire(u, body);
    forall i: nat ensures i in v.live <==> i < |v.submitted| && !Retired(v, i) {
      WithoutMembers(u.live, p, i);
      RetiredNow(u, body, i);
      assert i in u.live <==> i < |u.submitted| && !Retired(u, i);
    }
  }

  lemma {:induction false} RetiredNow(u: Sub, body: C.Completion, i: nat)
    requires u.retired < |u.tickets|
    ensures Retired(Retire(u, body), i) <==> Retired(u, i) || i == u.tickets[u.retired].index
  {
    hide PositionOf, Find, Without, Complete;
    var v := Retire(u, body);
    assert v.tickets == u.tickets;
    if Retired(u, i) {
      var j :| 0 <= j < u.retired && u.tickets[j].index == i;
      assert v.tickets[j].index == i;
    }
    if i == u.tickets[u.retired].index {
      assert v.tickets[u.retired].index == i;
    }
  }

  lemma {:induction false} WithoutMembers(s: seq<nat>, k: nat, x: nat)
    requires k < |s|
    requires Increasing(s)
    ensures x in Without(s, k) <==> x in s && x != s[k]
  {
    var w := Without(s, k);
    if x in s && x != s[k] {
      var i :| 0 <= i < |s| && s[i] == x;
      assert if i < k then w[i] == x else w[i - 1] == x;
    }
  }

  // ----- the whole system

  datatype System = System(subs: seq<Sub>, cq: C.System, origin: seq<nat>)

  datatype Step =
    | SubmitCmd(q: nat, data: int, outcome: Outcome)
    | Ring(q: nat)
    | Fetch(q: nat)
    | Finish(q: nat, index: nat, status: nat)
    | Inquire
    | Reap(want: nat)

  ghost function Count(origin: seq<nat>, q: nat): nat {
    if origin == [] then 0
    else Count(origin[..|origin| - 1], q) + if origin[|origin| - 1] == q then 1 else 0
  }

  /** Posted entry `i` is the next completion, in order, of the queue it came from. */
  ghost predicate Link(subs: seq<Sub>, posted: seq<C.Completion>, origin: seq<nat>, i: nat)
    requires i < |posted| == |origin|
  {
    origin[i] < |subs| && Reports(posted[i], subs[origin[i]], origin[i], Count(origin[..i], origin[i]))
  }

  ghost predicate Linked(subs: seq<Sub>, posted: seq<C.Completion>, origin: seq<nat>, reaped: nat) {
    && reaped <= |posted| == |origin|
    && (forall q :: 0 <= q < |subs| ==> SubInv(subs[q]))
    && (forall q :: 0 <= q < |subs| ==> |subs[q].tickets| == Count(origin, q))
    && (forall q :: 0 <= q < |subs| ==> subs[q].retired == Count(origin[..reaped], q))
    && (forall i :: 0 <= i < |posted| ==> Link(subs, posted, origin, i))
  }

  ghost predicate Inv(s: System) {
    C.Inv(s.cq) && Linked(s.subs, s.cq.posted, s.origin, |s.cq.reaped|)
  }

  ghost predicate Init(s: System) {
    C.Init(s.cq) && s.origin == [] && forall q :: 0 <= q < |s.subs| ==> SubInit(s.subs[q])
  }

  ghost function Entry(u: Sub, q: nat, index: nat, status: nat): C.Completion
    requires index < |u.fetched|
  {
    C.Completion(q, u.ctrlHead, u.fetched[index].cid, status)
  }

  /** Handles one entry: an unknown queue or an unknown command is a latent error. */
  ghost function HandleOne(subs: seq<Sub>, body: C.Completion): (r: (seq<Sub>, int))
    ensures |r.0| == |subs|
  {
    var q := body.sqId;
    if q >= |subs| then (subs, EBADSLT)
    else (subs[q := Retire(subs[q], body)], Complete(subs[q].sq, body).1)
  }

  /** Handles a batch of entries the way the copy loop does, giving each one's result. */
  ghost function HandleAll(subs: seq<Sub>, bodies: seq<C.Completion>): (r: (seq<Sub>, seq<int>))
    ensures |r.1| == |bodies| && |r.0| == |subs|
    decreases |bodies|
  {
    if bodies == [] then (subs, [])
    else
      var first := HandleOne(subs, bodies[0]);
      if first.1 != 0 then (first.0, [first.1] + seq(|bodies| - 1, _ => 0))
      else
        var rest := HandleAll(first.0, bodies[1..]);
        (rest.0, [0] + rest.1)
  }

  ghost predicate WellSized(s: System) {
    && 0 < |s.cq.buf| && s.cq.ctrlTail < |s.cq.buf|
    && forall q :: 0 <= q < |s.subs| ==>
         var u := s.subs[q]; 0 < |u.sq.slots| && u.sq.tailVirt < |u.sq.slots| && u.ctrlHead < |u.sq.slots|
  }

  ghost predicate Enabled(s: System, step: Step)
    requires WellSized(s)
  {
    match step
    case SubmitCmd(q, _, _) => q < |s.subs|
    case Ring(q) => q < |s.subs|
    case Fetch(q) => q < |s.subs| && s.subs[q].ctrlHead != s.subs[q].sq.tail
    case Finish(q, index, status) =>
      && q < |s.subs| && CanFinish(s.subs[q], index)
      && C.Enabled(s.cq, C.Post(Entry(s.subs[q], q, index, status)))
    case Inquire => true
    case Reap(want) => 0 < want <= s.cq.inquired
  }

  ghost function Next(s: System, step: Step): System
    requires WellSized(s) && Enabled(s, step)
  {
    match step
    case SubmitCmd(q, data, outcome) => s.(subs := s.subs[q := DoSubmit(s.subs[q], data, outcome)])
    case Ring(q) => s.(subs := s.subs[q := DoRing(s.subs[q])])
    case Fetch(q) => s.(subs := s.subs[q := DoFetch(s.subs[q])])
    case Finish(q, index, status) =>
      s.(subs := s.subs[q := DoFinish(s.subs[q], index)],
         cq := C.Next(s.cq, C.Post(Entry(s.subs[q], q, index, status))),
         origin := s.origin + [q])
    case Inquire => s.(cq := C.Next(s.cq, C.Inquire))
    case Reap(want) =>
      var bodies := C.Bodies(C.Window(s.cq.buf, s.cq.head, want));
      var (subs, rets) := HandleAll(s.subs, bodies);
      s.(subs := subs, cq := C.Next(s.cq, C.Reap(want, rets)))
  }

  lemma {:induction false} InitInv(s: System)
    requires Init(s)
    ensures Inv(s)
  {
    C.InitInv(s.cq);
    forall q | 0 <= q < |s.subs| ensures SubInv(s.subs[q]) {
      SubInitInv(s.subs[q]);
    }
  }

  /** A step inside one submission queue that leaves its completions alone. */
  lemma {:induction false} LocalStepLinked(subs: seq<Sub>, posted: seq<C.Completion>, origin: seq<nat>, reaped: nat, q: nat, v: Sub)
    requires Linked(subs, posted, origin, reaped) && q < |subs|
    requires SubInv(v) && v.tickets == subs[q].tickets && v.retired == subs[q].retired
    requires |v.sq.slots| == |subs[q].sq.slots| && subs[q].submitted <= v.submitted
    ensures Linked(subs[q := v], posted, origin, reaped)
  {
    hide Slot, Pass, SubInv;
    var subs' := subs[q := v];
    forall i | 0 <= i < |posted| ensures Link(subs', posted, origin, i) {
      assert Link(subs, posted, origin, i);
    }
  }

  lemma {:induction false} CountPrefix(origin: seq<nat>, i: nat, q: nat)
    requires i < |origin|
    ensures Count(origin[..i], q) <= Count(origin, q)
    ensures origin[i] == q ==> Count(origin[..i], q) < Count(origin, q)
    decreases |origin|
  {
    var last := |origin| - 1;
    if i < last {
      CountPrefix(origin[..last], i, q);
      assert origin[..last][..i] == origin[..i];
    }
  }

  lemma {:induction false} CountPush(origin: seq<nat>, x: nat, q: nat)
    ensures Count(origin + [x], q) == Count(origin, q) + if x == q then 1 else 0
  {
    assert (origin + [x])[..|origin|] == origin;
  }

  lemma {:induction false} FinishReports(u: Sub, q: nat, index: nat, status: nat)
    requires SubInv(u) && CanFinish(u, index)
    ensures Reports(Entry(u, q, index, status), DoFinish(u, index), q, |u.tickets|)
  {
    hide Slot, Pass;
  }

  lemma {:induction false} FinishLinked(s: System, q: nat, index: nat, status: nat)
    requires Inv(s) && WellSized(s) && Enabled(s, Finish(q, index, status))
    ensures Inv(Next(s, Finish(q, index, status)))
  {
    hide Slot, Pass;
    hide SubInv;
    var u, v := s.subs[q], DoFinish(s.subs[q], index);
    FinishReports(u, q, index, status);
    var t := Next(s, Finish(q, index, status));
    C.StepInv(s.cq, C.Post(Entry(u, q, index, status)));
    FinishInv(u, index);
    forall p | 0 <= p < |t.subs|
      ensures |t.subs[p].tickets| == Count(t.origin, p) && t.subs[p].retired == Count(t.origin[..|t.cq.reaped|], p)
    {
      CountPush(s.origin, q, p);
      assert t.origin[..|t.cq.reaped|] == s.origin[..|s.cq.reaped|];
    }
    forall i | 0 <= i < |t.cq.posted| ensures Link(t.subs, t.cq.posted, t.origin, i) {
      assert t.origin[..i] == s.origin[..i];
      if i < |s.origin| {
        assert Link(s.subs, s.cq.posted, s.origin, i);
      } else {
        assert s.origin[..i] == s.origin;
      }
    }
  }

  ghost predicate AllZero(rets: seq<int>) {
    forall i :: 0 <= i < |rets| ==> rets[i] == 0
  }

  /** Entries handled in posting order: each finds its node, and the link moves on by one. */
  lemma {:induction false} HandleAllLinked(subs: seq<Sub>, posted: seq<C.Completion>, origin: seq<nat>, reaped: nat,
                                           bodies: seq<C.Completion>)
    requires Linked(subs, posted, origin, reaped) && reaped + |bodies| <= |posted|
    requires bodies == posted[reaped..reaped + |bodies|]
    ensures Linked(HandleAll(subs, bodies).0, posted, origin, reaped + |bodies|)
    ensures AllZero(HandleAll(subs, bodies).1)
    decreases |bodies|
  {
    hide SubInv, Linked, HandleOne;
    if bodies != [] {
      assert bodies[0] == posted[reaped];
      HandleOneLinked(subs, posted, origin, reaped);
      HandleAllLinked(HandleOne(subs, bodies[0]).0, posted, origin, reaped + 1, bodies[1..]);
    }
  }

  lemma {:induction false} HandleOneLinked(subs: seq<Sub>, posted: seq<C.Completion>, origin: seq<nat>, reaped: nat)
    requires Linked(subs, posted, origin, reaped) && reaped < |posted|
    ensures HandleOne(subs, posted[reaped]).1 == 0
    ensures Linked(HandleOne(subs, posted[reaped]).0, posted, origin, reaped + 1)
  {
    hide Slot, Pass, SubInv;
    var q := origin[reaped];
    assert Link(subs, posted, origin, reaped);
    CountPrefix(origin, reaped, q);
    CompleteInv(subs[q], q, posted[reaped]);
    var subs' := subs[q := Retire(subs[q], posted[reaped])];
    forall p | 0 <= p < |subs'| ensures subs'[p].retired == Count(origin[..reaped + 1], p) {
      assert origin[..reaped + 1] == origin[..reaped] + [q];
      CountPush(origin[..reaped], q, p);
    }
    forall i | 0 <= i < |posted| ensures Link(subs', posted, origin, i) {
      assert Link(subs, posted, origin, i);
    }
  }

  lemma {:induction false} StepInv(s: System, step: Step)
    requires Inv(s) && WellSized(s) && Enabled(s, step)
    ensures Inv(Next(s, step))
  {
    hide Slot, Pass, SubInv, C.Inv;
    match step
    case SubmitCmd(q, data, outcome) =>
      SubmitInv(s.subs[q], data, outcome);
      LocalStepLinked(s.subs, s.cq.posted, s.origin, |s.cq.reaped|, q, DoSubmit(s.subs[q], data, outcome));
    case Ring(q) =>
      RingDoorbellInv(s.subs[q]);
      LocalStepLinked(s.subs, s.cq.posted, s.origin, |s.cq.reaped|, q, DoRing(s.subs[q]));
    case Fetch(q) =>
      FetchInv(s.subs[q]);
      LocalStepLinked(s.subs, s.cq.posted, s.origin, |s.cq.reaped|, q, DoFetch(s.subs[q]));
    case Finish(q, index, status) => FinishLinked(s, q, index, status);
    case Inquire => C.StepInv(s.cq, C.Inquire);
    case Reap(want) => ReapAll(s, want);
  }

  /** A reap within the inquired bound handles every entry without a latent error. */
  lemma {:induction false} ReapAll(s: System, want: nat)
    requires Inv(s) && WellSized(s) && Enabled(s, Reap(want))
    ensures var t := Next(s, Reap(want));
            Inv(t) && |t.cq.reaped| == |s.cq.reaped| + want
  {
    hide Slot, Pass, C.Inv, SubInv, HandleAll, C.Handled;
    var r := |s.cq.reaped|;
    InquiredBound(s.cq);
    C.WindowIsPosted(s.cq, want);
    var bodies := s.cq.posted[r..r + want];
    HandleAllLinked(s.subs, s.cq.posted, s.origin, r, bodies);
    ReapCq(s.cq, want, HandleAll(s.subs, bodies).1);
  }

  lemma {:induction false} InquiredBound(cq: C.System)
    requires C.Inv(cq)
    ensures |cq.reaped| + cq.inquired <= |cq.posted|
  {
  }

  lemma {:induction false} ReapCq(cq: C.System, want: nat, rets: seq<int>)
    requires C.Inv(cq) && 0 < want <= cq.inquired && |rets| == want && AllZero(rets)
    ensures var cq' := C.Next(cq, C.Reap(want, rets));
            C.Inv(cq') && cq'.posted == cq.posted && |cq'.reaped| == |cq.reaped| + want
  {
    C.HandledStep(rets, want, want - 1);
    C.ReapInv(cq, want, rets);
  }

  // ----- runs

  /** One step of a run. */
  ghost predicate Takes(s: System, step: Step, t: System) {
    WellSized(s) ==> Enabled(s, step) && t == Next(s, step)
  }

  ghost predicate Run(states: seq<System>, steps: seq<Step>) {
    && |states| == |steps| + 1
    && Init(states[0])
    && forall i :: 0 <= i < |steps| ==> Takes(states[i], steps[i], states[i + 1])
  }

  /** The invariant is what makes every step well defined, so a run never gets stuck on sizes. */
  lemma {:induction false} InvWellSized(s: System)
    requires Inv(s)
    ensures WellSized(s)
  {
    forall q | 0 <= q < |s.subs| ensures SubInv(s.subs[q]) {}
  }

  lemma {:induction false} RunInv(states: seq<System>, steps: seq<Step>, i: nat)
    requires Run(states, steps) && i < |states|
    ensures Inv(states[i])
  {
    hide Inv, Enabled, Next, WellSized;
    if i == 0 {
      InitInv(states[0]);
    } else {
      RunInv(states, steps, i - 1);
      InvWellSized(states[i - 1]);
      assert Takes(states[i - 1], steps[i - 1], states[i - 1 + 1]);
      StepInv(states[i - 1], steps[i - 1]);
    }
  }

  // ----- what has been reaped

  /** Posted entry `i` completes command `c` of queue `q`, and says so. */
  ghost predicate Completes(s: System, i: nat, q: nat, c: nat) {
    && i < |s.cq.posted| == |s.origin| && s.origin[i] == q < |s.subs|
    && var k := Count(s.origin[..i], q);
       && Reports(s.cq.posted[i], s.subs[q], q, k) && s.subs[q].tickets[k].index == c
  }

  ghost predicate CompletesOne(s: System, i: nat) {
    exists q, c :: Completes(s, i, q, c)
  }

  /** Command `c` of queue `q` has a completion among those the host copied out. */
  ghost predicate Reaped(s: System, q: nat, c: nat) {
    exists i :: 0 <= i < |s.cq.reaped| && Completes(s, i, q, c)
  }

  /** The `j`-th entry that came from `q`. */
  lemma {:induction false} NthFrom(origin: seq<nat>, q: nat, j: nat) returns (i: nat)
    requires j < Count(origin, q)
    ensures i < |origin| && origin[i] == q && Count(origin[..i], q) == j
    decreases |origin|
  {
    var last := |origin| - 1;
    if j < Count(origin[..last], q) {
      i := NthFrom(origin[..last], q, j);
      assert origin[..last][..i] == origin[..i];
    } else {
      i := last;
    }
  }

  /** Retired commands are exactly those with a reaped completion. */
  lemma {:induction false} RetiredIsReaped(s: System, q: nat, c: nat)
    requires Linked(s.subs, s.cq.posted, s.origin, |s.cq.reaped|) && q < |s.subs|
    ensures s.subs[q].retired <= |s.subs[q].tickets|
    ensures Retired(s.subs[q], c) <==> Reaped(s, q, c)
  {
    hide SubInv, Reports;
    var u, r := s.subs[q], |s.cq.reaped|;
    RetiredBound(u);
    if Retired(u, c) {
      var j :| 0 <= j < u.retired && u.tickets[j].index == c;
      var i := NthFrom(s.origin[..r], q, j);
      assert s.origin[..r][..i] == s.origin[..i];
      assert Link(s.subs, s.cq.posted, s.origin, i);
      assert Completes(s, i, q, c);
    }
    if Reaped(s, q, c) {
      var i :| 0 <= i < r && Completes(s, i, q, c);
      CountPrefix(s.origin[..r], i, q);
      assert s.origin[..r][..i] == s.origin[..i];
      assert u.tickets[Count(s.origin[..i], q)].index == c;
    }
  }

  lemma {:induction false} RetiredBound(u: Sub)
    requires SubInv(u)
    ensures u.retired <= |u.tickets|
  {
  }

  /** Every posted entry completes one command, and no command is completed twice. */
  lemma {:induction false} EntryCompletes(s: System, i: nat) returns (q: nat, c: nat)
    requires Linked(s.subs, s.cq.posted, s.origin, |s.cq.reaped|) && i < |s.cq.posted|
    ensures Completes(s, i, q, c)
  {
    hide SubInv;
    assert Link(s.subs, s.cq.posted, s.origin, i);
    q := s.origin[i];
    c := s.subs[q].tickets[Count(s.origin[..i], q)].index;
  }

  lemma {:induction false} CompletedOnce(s: System, i: nat, j: nat, q: nat, c: nat)
    requires Linked(s.subs, s.cq.posted, s.origin, |s.cq.reaped|) && i < j < |s.cq.posted|
    ensures !(Completes(s, i, q, c) && Completes(s, j, q, c))
  {
    hide RingInv, NodeInv, CidInv, Link;
    CountPrefix(s.origin[..j], i, q);
    assert s.origin[..j][..i] == s.origin[..i];
    assert q < |s.subs| ==> SubInv(s.subs[q]);
  }

  // ----- main results

  /**
   In every run of any queues: the controller reads exactly the submitted commands in order; the
   reaped completions are a prefix of the posted ones, each of which completes one command and none
   twice; the live commands are exactly those submitted and without a reaped completion, in
   submission order; and the driver keeps one node for each, each node that of a submitted command,
   with the same ids altogether.
   */
  lemma {:induction false} ProtocolIsSafe(states: seq<System>, steps: seq<Step>, i: nat, q: nat)
    requires Run(states, steps) && i < |states| && q < |states[i].subs|
    ensures var s, u := states[i], states[i].subs[q];
            && u.fetched <= u.submitted && 0 < |u.sq.slots|
            && Increasing(u.live) && (forall c: nat :: c in u.live <==> c < |u.submitted| && !Reaped(s, q, c))
            && Below(u.live, |u.submitted|) && Below(u.held, |u.submitted|)
            && Increasing(u.held) && u.sq.nodes == NodesFor(u.submitted, |u.sq.slots|, u.held)
            && |u.sq.nodes| == |u.live| && multiset(Ids(u.submitted, u.held)) == multiset(Ids(u.submitted, u.live))
    ensures states[i].cq.reaped <= states[i].cq.posted
    ensures forall j: nat :: j < |states[i].cq.posted| ==> CompletesOne(states[i], j)
    ensures forall j: nat, k: nat, p: nat, c: nat :: j < k < |states[i].cq.posted| ==>
              !(Completes(states[i], j, p, c) && Completes(states[i], k, p, c))
  {
    hide Slot, Pass, Completes;
    RunInv(states, steps, i);
    var s, u := states[i], states[i].subs[q];
    assert SubInv(u);
    assert |multiset(Ids(u.submitted, u.held))| == |u.held| && |multiset(Ids(u.submitted, u.live))| == |u.live|;
    forall c: nat ensures Retired(u, c) <==> Reaped(s, q, c) {
      RetiredIsReaped(s, q, c);
    }
    forall j: nat | j < |s.cq.posted| ensures CompletesOne(s, j) {
      var p, c := EntryCompletes(s, j);
    }
    forall j: nat, k: nat, p: nat, c: nat | j < k < |s.cq.posted| ensures !(Completes(s, j, p, c) && Completes(s, k, p, c)) {
      CompletedOnce(s, j, k, p, c);
    }
  }

  // ----- whose node is kept

  /** The nodes kept are those of the live commands. */
  ghost predicate Own(u: Sub) {
    u.held == u.live
  }

  /** A completion takes its own command's node if and only if no earlier live command has the same id. */
  lemma {:induction false} RetiresOwnNode(u: Sub, q: nat, body: C.Completion)
    requires SubInv(u) && Own(u) && u.retired < |u.tickets| && Reports(body, u, q, u.retired)
    ensures var p := PositionOf(u.live, u.tickets[u.retired].index);
            && p < |u.live| && u.live[p] == u.tickets[u.retired].index
            && (Own(Retire(u, body)) <==> forall j :: 0 <= j < p ==> Ids(u.submitted, u.live)[j] != body.commandId)
  {
    hide Slot, Pass, TicketInv, LiveInv, CidInv, Without, Complete, PositionOf;
    var p := LiveTicket(u);
    FindsNode(u, p);
    LiveIncreasing(u);
    var k, ids := Find(u.sq.nodes, body.commandId), Ids(u.submitted, u.live);
    assert forall j :: 0 <= j < |u.live| ==> u.sq.nodes[j].cid == ids[j];
    assert k <= p;
    if k < p {
      WithoutMembers(u.live, p, u.live[p]);
      WithoutMembers(u.live, k, u.live[p]);
    }
  }

  lemma {:induction false} RetireOwn(u: Sub, q: nat, body: C.Completion)
    requires SubInv(u) && Own(u) && Below(u.live, |u.submitted|) && DistinctIds(u)
    requires u.retired < |u.tickets| && Reports(body, u, q, u.retired)
    ensures SubInv(Retire(u, body)) && Own(Retire(u, body))
    ensures Below(Retire(u, body).live, |u.submitted|) && DistinctIds(Retire(u, body))
  {
    hide SubInv, Own, Slot, Ids, Find, Distinct, PositionOf;
    CompleteInv(u, q, body);
    RetiresOwnNode(u, q, body);
    var p := PositionOf(u.live, u.tickets[u.retired].index);
    FirstOfDistinct(Ids(u.submitted, u.live), p);
    DistinctLive(u.submitted, u.live, p);
  }

  lemma {:induction false} FirstOfDistinct(ids: seq<nat>, p: nat)
    requires Distinct(ids) && p < |ids|
    ensures forall j :: 0 <= j < p ==> ids[j] != ids[p]
  {
  }

  lemma {:induction false} DistinctLive(submitted: seq<Command>, live: seq<nat>, p: nat)
    requires Below(live, |submitted|) && Distinct(Ids(submitted, live)) && p < |live|
    ensures Below(Without(live, p), |submitted|) && Distinct(Ids(submitted, Without(live, p)))
  {
    hide Distinct;
    DistinctWithout(Ids(submitted, live), p);
    assert Ids(submitted, Without(live, p)) == Without(Ids(submitted, live), p);
  }

  ghost predicate AllOwn(subs: seq<Sub>) {
    forall q :: 0 <= q < |subs| ==> Own(subs[q])
  }

  /** Live commands have different ids on every queue. */
  ghost predicate AllDistinct(subs: seq<Sub>) {
    forall q :: 0 <= q < |subs| ==> Below(subs[q].live, |subs[q].submitted|) && DistinctIds(subs[q])
  }

  lemma {:induction false} HandleOneOwn(subs: seq<Sub>, posted: seq<C.Completion>, origin: seq<nat>, reaped: nat)
    requires Linked(subs, posted, origin, reaped) && reaped < |posted| && AllOwn(subs) && AllDistinct(subs)
    ensures var r := HandleOne(subs, posted[reaped]);
            r.1 == 0 && Linked(r.0, posted, origin, reaped + 1) && AllOwn(r.0) && AllDistinct(r.0)
  {
    hide Slot, Pass, SubInv, DistinctIds, Own;
    HandleOneLinked(subs, posted, origin, reaped);
    var q := origin[reaped];
    assert Link(subs, posted, origin, reaped);
    CountPrefix(origin, reaped, q);
    RetireOwn(subs[q], q, posted[reaped]);
    SubBelow(Retire(subs[q], posted[reaped]));
  }

  lemma {:induction false} SubBelow(u: Sub)
    requires SubInv(u)
    ensures Below(u.live, |u.submitted|)
  {
  }

  lemma {:induction false} HandleAllOwn(subs: seq<Sub>, posted: seq<C.Completion>, origin: seq<nat>, reaped: nat,
                                        bodies: seq<C.Completion>)
    requires Linked(subs, posted, origin, reaped) && reaped + |bodies| <= |posted| && AllOwn(subs) && AllDistinct(subs)
    requires bodies == posted[reaped..reaped + |bodies|]
    ensures AllOwn(HandleAll(subs, bodies).0)
    decreases |bodies|
  {
    hide Linked, HandleOne, AllOwn, AllDistinct;
    if bodies != [] {
      assert bodies[0] == posted[reaped];
      HandleOneOwn(subs, posted, origin, reaped);
      HandleAllOwn(HandleOne(subs, bodies[0]).0, posted, origin, reaped + 1, bodies[1..]);
    }
  }

  lemma {:induction false} StepOwn(s: System, step: Step)
    requires Inv(s) && WellSized(s) && Enabled(s, step) && AllOwn(s.subs) && AllDistinct(s.subs)
    ensures AllOwn(Next(s, step).subs)
  {
    hide Slot, Pass, SubInv, C.Inv, AllDistinct, HandleAll, Linked;
    if step.Reap? {
      var r := |s.cq.reaped|;
      InquiredBound(s.cq);
      C.WindowIsPosted(s.cq, step.want);
      HandleAllOwn(s.subs, s.cq.posted, s.origin, r, s.cq.posted[r..r + step.want]);
    }
  }

  /**
   As long as live commands have had different ids, the nodes are those of the live commands: one
   for each, in order, with its id and its slot.
   */
  lemma {:induction false} NodesAreOwn(states: seq<System>, steps: seq<Step>, i: nat)
    requires Run(states, steps) && i < |states| && forall j :: 0 <= j < i ==> AllDistinct(states[j].subs)
    ensures AllOwn(states[i].subs)
    ensures forall q :: 0 <= q < |states[i].subs| ==>
              var u := states[i].subs[q];
              && 0 < |u.sq.slots| && Below(u.live, |u.submitted|)
              && u.sq.nodes == NodesFor(u.submitted, |u.sq.slots|, u.live)
  {
    hide Enabled, Next, WellSized, AllDistinct;
    RunInv(states, steps, i);
    if i > 0 {
      NodesAreOwn(states, steps, i - 1);
      RunInv(states, steps, i - 1);
      InvWellSized(states[i - 1]);
      assert Takes(states[i - 1], steps[i - 1], states[i - 1 + 1]);
      StepOwn(states[i - 1], steps[i - 1]);
    }
    forall q | 0 <= q < |states[i].subs| ensures SubInv(states[i].subs[q]) && Own(states[i].subs[q]) {
      assert i == 0 ==> SubInit(states[0].subs[q]);
    }
  }

  /** In every run the ids of live commands differ wherever none of them has seen 2^16 later draws. */
  lemma {:induction false} YoungIdsDiffer(states: seq<System>, steps: seq<Step>, i: nat)
    requires Run(states, steps) && i < |states|
    requires forall q :: 0 <= q < |states[i].subs| ==> Young(states[i].subs[q])
    ensures AllDistinct(states[i].subs)
  {
    hide RingInv, TicketInv, C.Inv;
    RunInv(states, steps, i);
    forall q | 0 <= q < |states[i].subs| ensures Below(states[i].subs[q].live, |states[i].subs[q].submitted|) && DistinctIds(states[i].subs[q]) {
      assert SubInv(states[i].subs[q]);
      CidsDistinct(states[i].subs[q]);
    }
  }

  /**
   What a submit answers in every run: EBUSY and nothing else exactly when all but one slot are taken;
   otherwise 0 and one more command, or the error of what failed and no command.
   */
  lemma {:induction false} SubmitAnswers(states: seq<System>, steps: seq<Step>, i: nat, q: nat, data: int, outcome: Outcome)
    requires Run(states, steps) && i < |states| && q < |states[i].subs|
    ensures var u := states[i].subs[q];
            && 0 < |u.sq.slots| && u.sq.tailVirt < |u.sq.slots| && u.retired <= |u.tickets|
            && var v, ret := DoSubmit(u, data, outcome), Submit(u.sq, data, outcome).1;
               && v.sq == Submit(u.sq, data, outcome).0
               && (|u.submitted| - Known(u) == |u.sq.slots| - 1 ==> ret == EBUSY && v == u)
               && (|u.submitted| - Known(u) != |u.sq.slots| - 1 ==> ret == if outcome.Accepted? then 0 else outcome.errno)
               && (ret == 0 <==> |v.submitted| == |u.submitted| + 1)
               && v.submitted == u.submitted + (if ret == 0 then [Command(u.sq.nextCid, data)] else [])
               && |v.sq.nodes| == |u.sq.nodes| + (if ret == 0 then 1 else 0)
  {
    hide Slot, Pass;
    RunInv(states, steps, i);
    var u := states[i].subs[q];
    assert SubInv(u);
    FullAndEmpty(u);
  }

  /**
   In every run the head the driver compares with is the slot behind the last command the reaped
   completions report as read; from there to the virtual tail every slot holds the command
   submitted there, full or not; and a submit that is not refused writes outside that window.
   */
  lemma {:induction false} SubmitNeverOverwrites(states: seq<System>, steps: seq<Step>, i: nat, q: nat)
    requires Run(states, steps) && i < |states| && q < |states[i].subs|
    ensures var s, u := states[i], states[i].subs[q];
            && 0 < |u.sq.slots| && |s.cq.reaped| <= |s.origin|
            && u.retired == Count(s.origin[..|s.cq.reaped|], q) <= |u.tickets|
            && u.sq.head == Slot(Known(u), |u.sq.slots|) && u.sq.tailVirt == Slot(|u.submitted|, |u.sq.slots|)
            && Known(u) <= |u.fetched| <= |u.submitted| < Known(u) + |u.sq.slots|
            && (forall c :: Known(u) <= c < |u.submitted| ==> u.sq.slots[Slot(c, |u.sq.slots|)] == u.submitted[c])
            && (!IsFull(u.sq) ==> forall c :: Known(u) <= c < |u.submitted| ==> Slot(c, |u.sq.slots|) != u.sq.tailVirt)
            && (IsFull(u.sq) <==> |u.submitted| - Known(u) == |u.sq.slots| - 1)
            && (IsEmpty(u.sq) <==> |u.submitted| == Known(u))
  {
    hide Slot, Pass;
    RunInv(states, steps, i);
    var u := states[i].subs[q];
    assert SubInv(u);
    FullAndEmpty(u);
    if !IsFull(u.sq) {
      SubmitWritesFreeSlot(u);
    }
  }

  /** The head is what the last reaped completion of the queue reported. */
  lemma {:induction false} HeadIsReported(states: seq<System>, steps: seq<Step>, i: nat, q: nat, last: nat)
    requires Run(states, steps) && i < |states| && q < |states[i].subs|
    requires last < |states[i].cq.reaped| && states[i].cq.reaped[last].sqId == q
    requires forall k :: last < k < |states[i].cq.reaped| ==> states[i].cq.reaped[k].sqId != q
    ensures states[i].subs[q].sq.head == states[i].cq.reaped[last].sqHead
  {
    hide Slot, Pass;
    RunInv(states, steps, i);
    var s, u, r := states[i], states[i].subs[q], |states[i].cq.reaped|;
    assert SubInv(u);
    assert Link(s.subs, s.cq.posted, s.origin, last);
    assert s.origin[last] == q;
    forall k | last < k < r ensures s.origin[k] != q {
      assert Link(s.subs, s.cq.posted, s.origin, k);
      assert s.cq.reaped[k] == s.cq.posted[k];
    }
    NoneAfter(s.origin[..r], q, last);
    assert s.origin[..r][..last] == s.origin[..last];
  }

  lemma {:induction false} NoneAfter(origin: seq<nat>, q: nat, last: nat)
    requires last < |origin| && origin[last] == q && forall k :: last < k < |origin| ==> origin[k] != q
    ensures Count(origin, q) == Count(origin[..last], q) + 1
    decreases |origin|
  {
    if last < |origin| - 1 {
      NoneAfter(origin[..|origin| - 1], q, last);
      assert origin[..|origin| - 1][..last] == origin[..last];
    }
  }

  lemma {:induction false} FullAndEmpty(u: Sub)
    requires RingInv(u)
    ensures IsFull(u.sq) <==> |u.submitted| - Known(u) == |u.sq.slots| - 1
    ensures IsEmpty(u.sq) <==> |u.submitted| == Known(u)
  {
    hide Slot, Pass;
    var n, s, h := |u.sq.slots|, |u.submitted|, Known(u);
    Forward(s, 1, n);
    SmallSlot(u.sq.tailVirt + 1, n);
    PassBack(s + 1, n);
    if s + 1 < h + n {
      SubmitWritesFreeSlotConverse(s, h, n);
    }
    if h < s {
      SlotsDiffer(h, s, n);
    }
  }

  lemma {:induction false} SubmitWritesFreeSlotConverse(s: nat, h: nat, n: nat)
    requires 0 < n && h <= s && s + 1 < h + n
    ensures Slot(s + 1, n) != Slot(h, n)
  {
    SlotsDiffer(h, s + 1, n);
  }
}
