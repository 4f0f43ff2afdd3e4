/**
 The submission path of modules/dnvme: the full-queue test, the write at the virtual tail, the
 doorbell, the list of command nodes and their retirement by completions.
 */
module SubmissionQueue {
  import opened Ring
  import opened Linux
  import opened Sequences
  import C = CompletionQueue

  datatype Command = Command(cid: nat, data: int)

  /** Driver-side record of a command that has been submitted and not yet reaped. */
  datatype Node = Node(cid: nat, idx: nat)

  /** Host view of one submission queue. */
  datatype Sq = Sq(slots: seq<Command>, head: nat, tail: nat, tailVirt: nat, nextCid: nat, nodes: seq<Node>)

  predicate IsFull(sq: Sq)
    requires 0 < |sq.slots|
  {
    Slot(sq.tailVirt + 1, |sq.slots|) == sq.head
  }

  predicate IsEmpty(sq: Sq) {
    sq.tailVirt == sq.head
  }

  /**
   How the part of a submit that depends on foreign code ends: everything works, an error before
   an id is drawn, an error before the command is prepared (its id stays consumed), or an error
   while preparing it (its id is given back).
   */
  datatype Outcome = Accepted | FailsFirst(errno: Errno) | FailsEarly(errno: Errno) | FailsPreparing(errno: Errno)

  function Submit(sq: Sq, data: int, outcome: Outcome): (Sq, int)
    requires 0 < |sq.slots| && sq.tailVirt < |sq.slots|
  {
    if IsFull(sq) then (sq, EBUSY)
    else
      match outcome
      case FailsFirst(e) => (sq, e)
      case FailsEarly(e) => (sq.(nextCid := (sq.nextCid + 1) % U16), e)
      case FailsPreparing(e) => (sq.(nextCid := ((sq.nextCid + 1) % U16 + U16 - 1) % U16), e)
      case Accepted =>
        (sq.(slots := sq.slots[sq.tailVirt := Command(sq.nextCid, data)],
             nodes := sq.nodes + [Node(sq.nextCid, sq.tailVirt)],
             tailVirt := Slot(sq.tailVirt + 1, |sq.slots|) % U16,
             nextCid := (sq.nextCid + 1) % U16), 0)
  }

  /** An id drawn and given back leaves the counter where it was. */
  lemma {:induction false} GivenBack(cid: nat)
    requires cid < U16
    ensures ((cid + 1) % U16 + U16 - 1) % U16 == cid
  {
  }

  function RingDoorbell(sq: Sq): Sq {
    sq.(tail := sq.tailVirt)
  }

  /** Index of the first node with the given id, or the list's length. */
  function Find(nodes: seq<Node>, cid: nat): (k: nat)
    ensures k <= |nodes|
    ensures k < |nodes| ==> nodes[k].cid == cid
    ensures forall i :: 0 <= i < k ==> nodes[i].cid != cid
  {
    FirstWith(nodes, (n: Node) => n.cid == cid)
  }

  /** A completion for this queue: take over the reported head, retire the node. */
  function Complete(sq: Sq, body: C.Completion): (Sq, int) {
    var k := Find(sq.nodes, body.commandId);
    if k == |sq.nodes| then (sq.(head := body.sqHead), EBADSLT)
    else (sq.(head := body.sqHead, nodes := Without(sq.nodes, k)), 0)
  }

  /** Node `k` is the first with the id. */
  ghost predicate FirstFor(nodes: seq<Node>, cid: nat, k: nat)
    requires k < |nodes|
  {
    nodes[k].cid == cid && forall i :: 0 <= i < k ==> nodes[i].cid != cid
  }

  class Queue {
    const slots: array<Command>
    var head: nat
    var tail: nat
    var tailVirt: nat
    var nextCid: nat
    var nodes: seq<Node>
    var doorbell: nat

    ghost predicate Valid()
      reads this
    {
      0 < slots.Length <= U16 && tailVirt < slots.Length && nextCid < U16
    }

    ghost function View(): Sq
      reads this, slots
    {
      Sq(slots[..], head, tail, tailVirt, nextCid, nodes)
    }

    constructor (elements: nat)
      requires 0 < elements <= U16
      ensures Valid() && fresh(slots) && slots.Length == elements
      ensures head == tail == tailVirt == nextCid == doorbell == 0 && nodes == []
    {
      slots := new Command[elements](_ => Command(0, 0));
      head, tail, tailVirt, nextCid, doorbell, nodes := 0, 0, 0, 0, 0, [];
    }

    method FindCmd(cid: nat) returns (k: nat)
      ensures k == Find(nodes, cid)
    {
      k := 0;
      while k < |nodes| && nodes[k].cid != cid
        invariant k <= |nodes|
        invariant forall i :: 0 <= i < k ==> nodes[i].cid != cid
      {
        k := k + 1;
      }
    }

    method Submit64bCmd(data: int, outcome: Outcome) returns (ret: int)
      requires Valid()
      modifies this`tailVirt, this`nextCid, this`nodes, slots
      ensures Valid()
      ensures (View(), ret) == Submit(old(View()), data, outcome)
      ensures old((tailVirt + 1) % slots.Length == head) ==> ret == EBUSY && View() == old(View())
      ensures old((tailVirt + 1) % slots.Length != head) ==>
                ret == if outcome.Accepted? then 0 else outcome.errno
      ensures if ret == 0 then nodes == old(nodes) + [Node(old(nextCid), old(tailVirt))] && slots[old(tailVirt)] == Command(old(nextCid), data)
              else nodes == old(nodes) && slots[..] == old(slots[..]) && tailVirt == old(tailVirt)
      ensures nextCid == if ret == 0 || (outcome.FailsEarly? && old((tailVirt + 1) % slots.Length != head)) then old(nextCid + 1) % U16
                         else old(nextCid)
    {
      var next := (tailVirt + 1) % slots.Length;
      assert next == Slot(tailVirt + 1, slots.Length);
      hide Slot;
      if next == head {
        return EBUSY;
      }
      if outcome.FailsFirst? {
        return outcome.errno;
      }
      var cid := nextCid;
      nextCid := (nextCid + 1) % U16;
      match outcome {
        case FailsEarly(e) =>
          return e;
        case FailsPreparing(e) =>
          nextCid := (nextCid + U16 - 1) % U16;
          GivenBack(cid);
          return e;
        case Accepted =>
      }
      nodes := nodes + [Node(cid, tailVirt)];
      slots[tailVirt] := Command(cid, data);
      tailVirt := next % U16;
      ret := 0;
    }

    method RingSqDoorbell()
      requires Valid()
      modifies this`tail, this`doorbell
      ensures Valid() && View() == RingDoorbell(old(View())) && doorbell == tail
    {
      tail := tailVirt;
      doorbell := tail;
    }

    method HandleCmdCompletion(body: C.Completion) returns (ret: int)
      requires Valid()
      modifies this`head, this`nodes
      ensures Valid()
      ensures (View(), ret) == Complete(old(View()), body) && head == body.sqHead
      ensures (forall i :: 0 <= i < |old(nodes)| ==> old(nodes)[i].cid != body.commandId) ==> ret == EBADSLT && nodes == old(nodes)
      ensures forall k :: 0 <= k < |old(nodes)| && FirstFor(old(nodes), body.commandId, k) ==>
                ret == 0 && nodes == old(nodes)[..k] + old(nodes)[k + 1..]
    {
      head := body.sqHead;
      var k := FindCmd(body.commandId);
      if k == |nodes| {
        return EBADSLT;
      }
      nodes := nodes[..k] + nodes[k + 1..];
      ret := 0;
    }
  }
}
