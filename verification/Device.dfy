/**
 The queue tables of modules/dnvme: preparing queues, submitting create, delete and ordinary
 commands, handling their completions and dropping all queues. The concern is who owns each set
 of PRP pages (a command node, a submission queue or a completion queue) and when it is released.
 */
module Device {
  import opened Wrappers
  import opened Linux
  import opened Sequences

  datatype Opcode = CreateSq | CreateCq | DeleteSq | DeleteCq | Other

  /** `prps` is the identity of the page set the node owns. */
  datatype Node = Node(cid: nat, op: Opcode, target: nat, prps: Option<nat>)

  datatype Sq = Sq(elements: nat, contig: bool, created: bool, prps: Option<nat>, nodes: seq<Node>)

  datatype Cq = Cq(elements: nat, contig: bool, created: bool, prps: Option<nat>)

  /** `next` numbers page sets as they are allocated; `released` logs their releases. */
  datatype State = State(sqs: map<nat, Sq>, cqs: map<nat, Cq>, next: nat, released: seq<nat>)

  /**
   A 64-byte command as the user passes it. `prepared` is how mapping the data buffer, building its
   page lists and allocating the node end: 0, or an error. `irqOk` says whether the interrupt setup
   allows a create-CQ.
   */
  datatype Request = Request(sqid: nat, cid: nat, op: Opcode, target: nat, contig: bool, data: bool,
                             prepared: int, irqOk: bool)

  /** A queue the user asks to prepare. */
  datatype Prep = Prep(id: nat, elements: nat, contig: bool)

  /**
   What decides a prepare besides the tables: the largest queue, whether queues must be contiguous,
   whether memory is granted, and how binding the interrupt ends (0 also when there is none to bind).
   */
  datatype Host = Host(depth: nat, contigOnly: bool, alloc: bool, bound: int)

  function Held(p: Option<nat>): seq<nat> {
    if p.Some? then [p.value] else []
  }

  /** Page sets owned by a list of nodes, in list order. */
  function Prps(nodes: seq<Node>): seq<nat> {
    if nodes == [] then [] else Held(nodes[0].prps) + Prps(nodes[1..])
  }

  function Find(nodes: seq<Node>, cid: nat): (k: nat)
    ensures k <= |nodes|
    ensures k < |nodes| ==> nodes[k].cid == cid
    ensures forall i :: 0 <= i < k ==> nodes[i].cid != cid
  {
    FirstWith(nodes, (n: Node) => n.cid == cid)
  }

  // ----- releasing queues

  function ReleaseSq(s: State, id: nat): State
    requires id in s.sqs
  {
    var q := s.sqs[id];
    s.(sqs := s.sqs - {id},
       released := s.released + Prps(q.nodes) + if q.contig then [] else Held(q.prps))
  }

  function ReleaseCq(s: State, id: nat): State
    requires id in s.cqs
  {
    var q := s.cqs[id];
    s.(cqs := s.cqs - {id}, released := s.released + if q.contig then [] else Held(q.prps))
  }

  /** Keeps the queue but drops its commands. */
  function ReinitSq(s: State, id: nat): State
    requires id in s.sqs
  {
    var q := s.sqs[id];
    s.(sqs := s.sqs[id := q.(nodes := [])], released := s.released + Prps(q.nodes))
  }

  function SweepSq(s: State, id: nat, saveAdmin: bool): State {
    if id !in s.sqs then s
    else if saveAdmin && id == 0 then ReinitSq(s, id) else ReleaseSq(s, id)
  }

  function SweepCq(s: State, id: nat, saveAdmin: bool): State {
    if id !in s.cqs || (saveAdmin && id == 0) then s else ReleaseCq(s, id)
  }

  function SweepSqs(s: State, id: nat, saveAdmin: bool): State
    requires id <= U16
    decreases U16 - id
  {
    if id == U16 then s else SweepSqs(SweepSq(s, id, saveAdmin), id + 1, saveAdmin)
  }

  function SweepCqs(s: State, id: nat, saveAdmin: bool): State
    requires id <= U16
    decreases U16 - id
  {
    if id == U16 then s else SweepCqs(SweepCq(s, id, saveAdmin), id + 1, saveAdmin)
  }

  function DeleteAll(s: State, saveAdmin: bool): State {
    SweepCqs(SweepSqs(s, 0, saveAdmin), 0, saveAdmin)
  }

  // ----- preparing and submitting

  /** Why a prepare is turned down; 0 when it is not. */
  function PrepareRefusal(taken: bool, p: Prep, h: Host): int {
    if p.elements == 0 || p.elements > h.depth then EINVAL
    else if taken then EEXIST
    else if h.contigOnly && !p.contig then EINVAL
    else if !h.alloc then ENOMEM
    else 0
  }

  function PrepareSq(s: State, p: Prep, h: Host): (State, int) {
    var refusal := PrepareRefusal(p.id in s.sqs, p, h);
    if refusal != 0 then (s, refusal)
    else (s.(sqs := s.sqs[p.id := Sq(p.elements, p.contig, false, None, [])]), 0)
  }

  /** A queue whose interrupt cannot be bound is released again. */
  function PrepareCq(s: State, p: Prep, h: Host): (State, int) {
    var refusal := PrepareRefusal(p.id in s.cqs, p, h);
    if refusal != 0 then (s, refusal)
    else
      var t := s.(cqs := s.cqs[p.id := Cq(p.elements, p.contig, false, None)]);
      if h.bound < 0 then (ReleaseCq(t, p.id), h.bound) else (t, 0)
  }

  predicate IsQueueCommand(r: Request) {
    r.sqid == 0 && r.op != Other
  }

  /** Why a create command is turned down before anything is prepared; 0 when it is not. */
  function CreateRefusal(s: State, r: Request): int {
    if r.op == CreateSq then
      if r.target !in s.sqs then EINVAL
      else if r.contig != s.sqs[r.target].contig then EINVAL
      else if !s.sqs[r.target].contig && !r.data then EINVAL
      else if s.sqs[r.target].created then EPERM
      else 0
    else if r.op == CreateCq then
      if r.target !in s.cqs then EBADSLT
      else if r.contig != s.cqs[r.target].contig then EINVAL
      else if !s.cqs[r.target].contig && !r.data then EINVAL
      else if s.cqs[r.target].created then EINVAL
      else if !r.irqOk then EINVAL
      else 0
    else 0
  }

  predicate NeedsPrps(r: Request) {
    r.data && !(r.sqid == 0 && (r.op == DeleteSq || r.op == DeleteCq))
  }

  function TargetOf(r: Request): nat {
    if IsQueueCommand(r) then r.target else 0
  }

  function WithNode(s: State, id: nat, n: Node): State
    requires id in s.sqs
  {
    s.(sqs := s.sqs[id := s.sqs[id].(nodes := s.sqs[id].nodes + [n])])
  }

  /** Adds the node for an accepted command and hands its page set, if any, to its owner. */
  function AddNode(s: State, r: Request): State
    requires r.sqid in s.sqs
    requires r.sqid == 0 && r.op == CreateSq ==> r.target in s.sqs
    requires r.sqid == 0 && r.op == CreateCq ==> r.target in s.cqs
  {
    var target := TargetOf(r);
    if !NeedsPrps(r) then
      WithNode(s, r.sqid, Node(r.cid, r.op, target, None))
    else
      var p := s.next;
      var t := s.(next := p + 1);
      if target == 0 then
        WithNode(t, r.sqid, Node(r.cid, r.op, target, Some(p)))
      else if r.op == CreateSq then
        WithNode(t.(sqs := t.sqs[target := t.sqs[target].(prps := Some(p))]), r.sqid, Node(r.cid, r.op, target, None))
      else
        WithNode(t.(cqs := t.cqs[target := t.cqs[target].(prps := Some(p))]), r.sqid, Node(r.cid, r.op, target, None))
  }

  function MarkCreated(s: State, r: Request): State {
    if r.sqid == 0 && r.op == CreateSq && r.target in s.sqs then
      s.(sqs := s.sqs[r.target := s.sqs[r.target].(created := true)])
    else if r.sqid == 0 && r.op == CreateCq && r.target in s.cqs then
      s.(cqs := s.cqs[r.target := s.cqs[r.target].(created := true)])
    else s
  }

  function Submit(s: State, r: Request): (State, int) {
    if r.sqid !in s.sqs then (s, EBADSLT)
    else if r.sqid == 0 && CreateRefusal(s, r) != 0 then (s, CreateRefusal(s, r))
    else if r.prepared != 0 then (s, r.prepared)
    else (MarkCreated(AddNode(s, r), r), 0)
  }

  // ----- completions

  function DropNode(s: State, id: nat, k: nat): State
    requires id in s.sqs && k < |s.sqs[id].nodes|
  {
    var nodes := s.sqs[id].nodes;
    s.(sqs := s.sqs[id := s.sqs[id].(nodes := nodes[..k] + nodes[k + 1..])])
  }

  function DeleteSqById(s: State, id: nat): State {
    if id in s.sqs then ReleaseSq(s, id) else s
  }

  function DeleteCqById(s: State, id: nat): State {
    if id in s.cqs then ReleaseCq(s, id) else s
  }

  predicate FreesQueue(op: Opcode, status: nat) {
    match op
    case CreateSq => status != 0
    case CreateCq => status != 0
    case DeleteSq => status == 0
    case DeleteCq => status == 0
    case Other => false
  }

  /** Completion of a command on submission queue `sqid`. */
  function Complete(s: State, sqid: nat, cid: nat, status: nat): (State, int) {
    if sqid !in s.sqs then (s, EBADSLT)
    else
      var k := Find(s.sqs[sqid].nodes, cid);
      if k == |s.sqs[sqid].nodes| then (s, EBADSLT)
      else
        var n := s.sqs[sqid].nodes[k];
        if sqid == 0 && n.op != Other then
          if !FreesQueue(n.op, status) then (DropNode(s, sqid, k), 0)
          else if n.target == 0 then (DropNode(s, sqid, k), EINVAL)
          else
            var t := if n.op == CreateSq || n.op == DeleteSq then DeleteSqById(s, n.target) else DeleteCqById(s, n.target);
            (DropNode(t, sqid, k), 0)
        else
          (DropNode(s.(released := s.released + Held(n.prps)), sqid, k), 0)
  }

  /** A completion entry as far as the tables are concerned. */
  datatype Cqe = Cqe(sqid: nat, cid: nat, status: nat)

  /**
   Entries handled in one reap, in order: the first that fails is still counted, and ends it.
   Gives the new state, how many entries were handled, and the error if there was one.
   */
  function CompleteAll(s: State, batch: seq<Cqe>): (r: (State, nat, int))
    ensures r.1 <= |batch| && (r.1 < |batch| ==> r.2 != 0)
    decreases |batch|
  {
    if batch == [] then (s, 0, 0)
    else
      var (t, ret) := Complete(s, batch[0].sqid, batch[0].cid, batch[0].status);
      if ret != 0 then (t, 1, ret)
      else
        var rest := CompleteAll(t, batch[1..]);
        (rest.0, 1 + rest.1, rest.2)
  }

  // ----- the driver

  class Driver {
    var sqs: map<nat, Sq>
    var cqs: map<nat, Cq>
    var next: nat
    ghost var released: seq<nat>

    ghost function View(): State
      reads this
    {
      State(sqs, cqs, next, released)
    }

    constructor ()
      ensures View() == State(map[], map[], 0, [])
    {
      sqs, cqs, next, released := map[], map[], 0, [];
    }

    method ReleasePrps(p: Option<nat>)
      modifies this`released
      ensures released == old(released) + Held(p)
    {
      if p.Some? {
        released := released + [p.value];
      }
    }

    /** Walks a command list, releasing what each node owns. */
    method DeleteCmdList(nodes: seq<Node>)
      modifies this`released
      ensures released == old(released) + Prps(nodes)
    {
      var i := 0;
      while i < |nodes|
        invariant i <= |nodes|
        invariant released + Prps(nodes[i..]) == old(released) + Prps(nodes)
      {
        assert nodes[i..][0] == nodes[i] && nodes[i..][1..] == nodes[i + 1..];
        ReleasePrps(nodes[i].prps);
        i := i + 1;
      }
    }

    method ReleaseSqNode(id: nat)
      requires id in sqs
      modifies this`sqs, this`released
      ensures View() == ReleaseSq(old(View()), id)
    {
      var q := sqs[id];
      sqs := sqs - {id};
      DeleteCmdList(q.nodes);
      if !q.contig {
        ReleasePrps(q.prps);
      }
    }

    method ReleaseCqNode(id: nat)
      requires id in cqs
      modifies this`cqs, this`released
      ensures View() == ReleaseCq(old(View()), id)
    {
      var q := cqs[id];
      cqs := cqs - {id};
      if !q.contig {
        ReleasePrps(q.prps);
      }
    }

    method DeleteAllQueues(saveAdmin: bool)
      modifies this
      ensures View() == DeleteAll(old(View()), saveAdmin)
    {
      ghost var start := View();
      for id := 0 to U16
        invariant SweepSqs(View(), id, saveAdmin) == SweepSqs(start, 0, saveAdmin)
      {
        if id in sqs {
          if saveAdmin && id == 0 {
            var q := sqs[id];
            DeleteCmdList(q.nodes);
            sqs := sqs[id := q.(nodes := [])];
          } else {
            ReleaseSqNode(id);
          }
        }
      }
      ghost var middle := View();
      for id := 0 to U16
        invariant SweepCqs(View(), id, saveAdmin) == SweepCqs(middle, 0, saveAdmin)
      {
        if id in cqs && !(saveAdmin && id == 0) {
          ReleaseCqNode(id);
        }
      }
    }

    method PrepareSqNode(p: Prep, h: Host) returns (ret: int)
      modifies this`sqs
      ensures (View(), ret) == PrepareSq(old(View()), p, h)
    {
      if p.elements == 0 || p.elements > h.depth {
        return EINVAL;
      }
      if p.id in sqs {
        return EEXIST;
      }
      if h.contigOnly && !p.contig {
        return EINVAL;
      }
      if !h.alloc {
        return ENOMEM;
      }
      sqs := sqs[p.id := Sq(p.elements, p.contig, false, None, [])];
      ret := 0;
    }

    method PrepareCqNode(p: Prep, h: Host) returns (ret: int)
      modifies this`cqs, this`released
      ensures (View(), ret) == PrepareCq(old(View()), p, h)
    {
      if p.elements == 0 || p.elements > h.depth {
        return EINVAL;
      }
      if p.id in cqs {
        return EEXIST;
      }
      if h.contigOnly && !p.contig {
        return EINVAL;
      }
      if !h.alloc {
        return ENOMEM;
      }
      cqs := cqs[p.id := Cq(p.elements, p.contig, false, None)];
      if h.bound < 0 {
        ReleaseCqNode(p.id);
        return h.bound;
      }
      ret := 0;
    }

    /** The part of a submit that concerns the tables: sanity checks, page set, node, ownership. */
    method SubmitCmd(r: Request) returns (ret: int)
      modifies this`sqs, this`cqs, this`next
      ensures (View(), ret) == Submit(old(View()), r)
    {
      if r.sqid !in sqs {
        return EBADSLT;
      }
      if r.sqid == 0 && r.op == CreateSq {
        if r.target !in sqs || r.contig != sqs[r.target].contig || (!sqs[r.target].contig && !r.data) {
          return EINVAL;
        }
        if sqs[r.target].created {
          return EPERM;
        }
      } else if r.sqid == 0 && r.op == CreateCq {
        if r.target !in cqs {
          return EBADSLT;
        }
        if r.contig != cqs[r.target].contig || (!cqs[r.target].contig && !r.data) || cqs[r.target].created || !r.irqOk {
          return EINVAL;
        }
      }
      if r.prepared != 0 {
        return r.prepared;
      }
      var owned := None;
      var target := if r.sqid == 0 && r.op != Other then r.target else 0;
      if NeedsPrps(r) {
        if target == 0 {
          owned := Some(next);
        } else if r.op == CreateSq {
          sqs := sqs[target := sqs[target].(prps := Some(next))];
        } else {
          cqs := cqs[target := cqs[target].(prps := Some(next))];
        }
        next := next + 1;
      }
      sqs := sqs[r.sqid := sqs[r.sqid].(nodes := sqs[r.sqid].nodes + [Node(r.cid, r.op, target, owned)])];
      if r.sqid == 0 && r.op == CreateSq {
        sqs := sqs[r.target := sqs[r.target].(created := true)];
      } else if r.sqid == 0 && r.op == CreateCq {
        cqs := cqs[r.target := cqs[r.target].(created := true)];
      }
      ret := 0;
    }

    method HandleCmdCompletion(sqid: nat, cid: nat, status: nat) returns (ret: int)
      modifies this`sqs, this`cqs, this`released
      ensures (View(), ret) == Complete(old(View()), sqid, cid, status)
    {
      if sqid !in sqs {
        return EBADSLT;
      }
      var k := Find(sqs[sqid].nodes, cid);
      if k == |sqs[sqid].nodes| {
        return EBADSLT;
      }
      var n := sqs[sqid].nodes[k];
      ret := 0;
      if sqid == 0 && n.op != Other {
        if FreesQueue(n.op, status) {
          if n.target == 0 {
            ret := EINVAL;
          } else if n.op == CreateSq || n.op == DeleteSq {
            if n.target in sqs {
              ReleaseSqNode(n.target);
            }
          } else if n.target in cqs {
            ReleaseCqNode(n.target);
          }
        }
      } else {
        ReleasePrps(n.prps);
      }
      var nodes := sqs[sqid].nodes;
      sqs := sqs[sqid := sqs[sqid].(nodes := nodes[..k] + nodes[k + 1..])];
    }

    /** Handles the entries of one reap, stopping after the first that fails. */
    method HandleBatch(batch: seq<Cqe>) returns (reaped: nat, ret: int)
      modifies this`sqs, this`cqs, this`released
      ensures (View(), reaped, ret) == CompleteAll(old(View()), batch)
    {
      hide Complete;
      reaped, ret := 0, 0;
      assert batch[0..] == batch;
      while reaped < |batch|
        invariant reaped <= |batch| && ret == 0
        invariant next == old(next)
        invariant var rest := CompleteAll(View(), batch[reaped..]);
                  CompleteAll(old(View()), batch) == (rest.0, reaped + rest.1, rest.2)
      {
        var c := batch[reaped];
        assert batch[reaped..][1..] == batch[reaped + 1..];
        ret := HandleCmdCompletion(c.sqid, c.cid, c.status);
        reaped := reaped + 1;
        if ret != 0 {
          return;
        }
      }
    }
  }
}
