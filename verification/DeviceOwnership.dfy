/**
 Ownership of PRP page sets over every run of the driver: each set has exactly one owner until it
 is released, and it is released exactly once.
 */
module DeviceOwnership {
  import opened Wrappers
  import opened Linux
  import opened Sequences
  import opened Device

  datatype Owner = NodeOn(sq: nat) | SqItself(id: nat) | CqItself(id: nat)

  ghost predicate Owns(s: State, o: Owner, p: nat) {
    match o
    case NodeOn(q) => q in s.sqs && p in Prps(s.sqs[q].nodes)
    case SqItself(q) => q in s.sqs && s.sqs[q].prps == Some(p)
    case CqItself(q) => q in s.cqs && s.cqs[q].prps == Some(p)
  }

  /** Contiguous queues own no page set, nor do the nodes of queue commands; ids are 16 bits wide. */
  ghost predicate Shape(s: State) {
    && (forall q :: q in s.sqs ==> q < U16 && (s.sqs[q].contig || !s.sqs[q].created ==> s.sqs[q].prps == None))
    && (forall q :: q in s.cqs ==> q < U16 && (s.cqs[q].contig || !s.cqs[q].created ==> s.cqs[q].prps == None))
    && (0 in s.sqs ==> QueueNodesOwnNothing(s.sqs[0].nodes))
  }

  ghost predicate QueueNodesOwnNothing(nodes: seq<Node>) {
    forall k :: 0 <= k < |nodes| && nodes[k].op != Other ==> nodes[k].prps == None
  }

  /** `owner` names the one owner of every page set that is allocated and not released. */
  ghost predicate Inv(s: State, owner: map<nat, Owner>) {
    && Shape(s)
    && Distinct(s.released)
    && (forall q :: q in s.sqs ==> Distinct(Prps(s.sqs[q].nodes)))
    && (forall p: nat :: p in owner <==> p < s.next && p !in s.released)
    && (forall p :: p in s.released ==> p < s.next)
    && (forall o: Owner, p: nat :: Owns(s, o, p) <==> p in owner && owner[p] == o)
  }

  // ----- sequences of page sets

  lemma {:induction false} PrpsConcat(a: seq<Node>, b: seq<Node>)
    ensures Prps(a + b) == Prps(a) + Prps(b)
  {
    hide Held, Prps;
    EmptyPrps();
    if a == [] {
      assert a + b == b;
    } else {
      PrpsHead(a);
      PrpsHead(a + b);
      assert (a + b)[1..] == a[1..] + b;
      PrpsConcat(a[1..], b);
    }
  }

  lemma {:induction false} DistinctConcat(a: seq<nat>, b: seq<nat>)
    requires Distinct(a) && Distinct(b) && forall p :: p in b ==> p !in a
    ensures Distinct(a + b)
  {
    var c := a + b;
    forall i, j | 0 <= i < j < |c| ensures c[i] != c[j] {
      if i < |a| <= j {
        assert b[j - |a|] in b;
      }
    }
  }

  lemma {:induction false} PrpsHead(nodes: seq<Node>)
    requires nodes != []
    ensures Prps(nodes) == Held(nodes[0].prps) + Prps(nodes[1..])
  {
  }

  lemma {:induction false} PrpsSplit(nodes: seq<Node>, k: nat)
    requires k < |nodes|
    ensures Prps(nodes) == Prps(nodes[..k]) + Held(nodes[k].prps) + Prps(nodes[k + 1..])
    ensures Prps(nodes[..k] + nodes[k + 1..]) == Prps(nodes[..k]) + Prps(nodes[k + 1..])
  {
    hide Prps, Held;
    var rest := nodes[k..];
    assert nodes == nodes[..k] + rest;
    assert rest[1..] == nodes[k + 1..];
    PrpsConcat(nodes[..k], rest);
    PrpsConcat(nodes[..k], rest[1..]);
    PrpsHead(rest);
  }

  /** Dropping a node loses exactly what it held. */
  lemma {:induction false} DropPrps(nodes: seq<Node>, k: nat)
    requires k < |nodes| && Distinct(Prps(nodes))
    ensures var rest := Prps(nodes[..k] + nodes[k + 1..]);
            Distinct(rest) && forall p :: p in rest <==> p in Prps(nodes) && nodes[k].prps != Some(p)
  {
    hide Prps;
    PrpsSplit(nodes, k);
    DropMiddle(Prps(nodes[..k]), Held(nodes[k].prps), Prps(nodes[k + 1..]));
  }

  lemma {:induction false} DropMiddle(a: seq<nat>, m: seq<nat>, b: seq<nat>)
    requires Distinct(a + m + b)
    ensures Distinct(a + b)
    ensures forall p :: p in a + b <==> p in a + m + b && p !in m
  {
    var whole := a + m + b;
    forall i, j | 0 <= i < j < |a + b| ensures (a + b)[i] != (a + b)[j] {
      assert (a + b)[i] == whole[if i < |a| then i else i + |m|];
      assert (a + b)[j] == whole[if j < |a| then j else j + |m|];
    }
    forall p | p in a + b ensures p in whole && p !in m {
      var i :| 0 <= i < |a + b| && (a + b)[i] == p;
      var i' := if i < |a| then i else i + |m|;
      assert whole[i'] == p;
      forall j | 0 <= j < |m| ensures m[j] != p {
        assert whole[|a| + j] == m[j];
      }
    }
  }

  lemma {:induction false} PrpsMember(nodes: seq<Node>, k: nat)
    requires k < |nodes|
    ensures forall p :: nodes[k].prps == Some(p) ==> p in Prps(nodes)
  {
    PrpsSplit(nodes, k);
  }

  // ----- one release at a time

  /** Releases `gone`, all of it owned, and hands nothing to anybody else. */
  lemma {:induction false} ReleaseInv(s: State, owner: map<nat, Owner>, t: State, gone: seq<nat>) returns (owner': map<nat, Owner>)
    requires Inv(s, owner) && Shape(t)
    requires t.next == s.next && t.released == s.released + gone
    requires Distinct(gone) && forall p :: p in gone ==> p in owner
    requires forall q :: q in t.sqs ==> Distinct(Prps(t.sqs[q].nodes))
    requires forall o: Owner, p: nat :: Owns(t, o, p) <==> Owns(s, o, p) && p !in gone
    ensures Inv(t, owner')
  {
    DistinctConcat(s.released, gone);
    owner' := map p | p in owner && p !in gone :: owner[p];
  }

  lemma {:induction false} ReleaseSqInv(s: State, owner: map<nat, Owner>, id: nat) returns (owner': map<nat, Owner>)
    requires Inv(s, owner) && id in s.sqs
    ensures Inv(ReleaseSq(s, id), owner')
  {
    hide Prps;
    var q := s.sqs[id];
    var t := ReleaseSq(s, id);
    var held := if q.contig then [] else Held(q.prps);
    var gone := Prps(q.nodes) + held;
    assert t.released == s.released + gone;
    forall p | p in Prps(q.nodes) ensures p in owner && owner[p] == NodeOn(id) {
      assert Owns(s, NodeOn(id), p);
    }
    forall p | p in held ensures p in owner && owner[p] == SqItself(id) {
      assert Owns(s, SqItself(id), p);
    }
    DistinctConcat(Prps(q.nodes), held);
    forall o: Owner, p: nat ensures Owns(t, o, p) <==> Owns(s, o, p) && p !in gone {
      assert Owns(s, o, p) <==> p in owner && owner[p] == o;
    }
    owner' := ReleaseInv(s, owner, t, gone);
  }

  lemma {:induction false} ReleaseCqInv(s: State, owner: map<nat, Owner>, id: nat) returns (owner': map<nat, Owner>)
    requires Inv(s, owner) && id in s.cqs
    ensures Inv(ReleaseCq(s, id), owner')
  {
    var q := s.cqs[id];
    var t := ReleaseCq(s, id);
    var gone := if q.contig then [] else Held(q.prps);
    forall p | p in gone ensures p in owner && owner[p] == CqItself(id) {
      assert Owns(s, CqItself(id), p);
    }
    forall o: Owner, p: nat ensures Owns(t, o, p) <==> Owns(s, o, p) && p !in gone {
      assert Owns(s, o, p) <==> p in owner && owner[p] == o;
    }
    owner' := ReleaseInv(s, owner, t, gone);
  }

  lemma {:induction false} ReinitSqInv(s: State, owner: map<nat, Owner>, id: nat) returns (owner': map<nat, Owner>)
    requires Inv(s, owner) && id in s.sqs
    ensures Inv(ReinitSq(s, id), owner')
  {
    var t := ReinitSq(s, id);
    var gone := Prps(s.sqs[id].nodes);
    forall p | p in gone ensures p in owner && owner[p] == NodeOn(id) {
      assert Owns(s, NodeOn(id), p);
    }
    forall o: Owner, p: nat ensures Owns(t, o, p) <==> Owns(s, o, p) && p !in gone {
      assert Owns(s, o, p) <==> p in owner && owner[p] == o;
    }
    owner' := ReleaseInv(s, owner, t, gone);
  }

  lemma {:induction false} SweepSqsInv(s: State, owner: map<nat, Owner>, id: nat, save: bool) returns (owner': map<nat, Owner>)
    requires Inv(s, owner) && id <= U16
    ensures Inv(SweepSqs(s, id, save), owner')
    decreases U16 - id
  {
    hide Inv;
    if id == U16 {
      owner' := owner;
    } else {
      var mid := owner;
      if id in s.sqs {
        if save && id == 0 {
          mid := ReinitSqInv(s, owner, id);
        } else {
          mid := ReleaseSqInv(s, owner, id);
        }
      }
      owner' := SweepSqsInv(SweepSq(s, id, save), mid, id + 1, save);
    }
  }

  lemma {:induction false} SweepCqsInv(s: State, owner: map<nat, Owner>, id: nat, save: bool) returns (owner': map<nat, Owner>)
    requires Inv(s, owner) && id <= U16
    ensures Inv(SweepCqs(s, id, save), owner')
    decreases U16 - id
  {
    hide Inv;
    if id == U16 {
      owner' := owner;
    } else {
      var mid := owner;
      if id in s.cqs && !(save && id == 0) {
        mid := ReleaseCqInv(s, owner, id);
      }
      owner' := SweepCqsInv(SweepCq(s, id, save), mid, id + 1, save);
    }
  }

  // ----- submits

  /**
   What keeps ownership sound: a create carries a data buffer only for a discontiguous I/O queue.
   A caller can check it before submitting.
   */
  ghost predicate CleanCreate(r: Request) {
    r.sqid == 0 && (r.op == CreateSq || r.op == CreateCq) && r.data ==>
      r.target != 0 && !r.contig
  }

  lemma {:induction false} NotYetOwned(s: State, owner: map<nat, Owner>)
    requires Inv(s, owner)
    ensures forall o :: !Owns(s, o, s.next)
  {
    assert s.next !in owner;
  }

  lemma {:induction false} AppendPrps(nodes: seq<Node>, n: Node)
    ensures Prps(nodes + [n]) == Prps(nodes) + Held(n.prps)
  {
    PrpsConcat(nodes, [n]);
  }

  lemma {:induction false} SubmitShape(s: State, r: Request)
    requires Shape(s) && CleanCreate(r) && Submit(s, r).1 == 0
    ensures Shape(Submit(s, r).0)
  {
    hide QueueNodesOwnNothing;
    SubmitNodesShape(s, r);
  }

  lemma {:induction false} SubmitNodesShape(s: State, r: Request)
    requires (0 in s.sqs ==> QueueNodesOwnNothing(s.sqs[0].nodes)) && CleanCreate(r) && Submit(s, r).1 == 0
    ensures 0 in Submit(s, r).0.sqs ==> QueueNodesOwnNothing(Submit(s, r).0.sqs[0].nodes)
  {
  }

  /** Who gets the page set of an accepted command that has one. */
  ghost function Recipient(r: Request): Owner {
    if TargetOf(r) == 0 then NodeOn(r.sqid) else if r.op == CreateSq then SqItself(r.target) else CqItself(r.target)
  }

  /** The submitting queue's list grows by what the new node holds; other lists keep theirs. */
  lemma {:induction false} SubmitLists(s: State, r: Request)
    requires Submit(s, r).1 == 0
    ensures var t := Submit(s, r).0;
            && t.sqs.Keys == s.sqs.Keys && t.cqs.Keys == s.cqs.Keys
            && t.released == s.released && t.next == s.next + (if NeedsPrps(r) then 1 else 0)
            && forall q :: q in t.sqs ==>
                 Prps(t.sqs[q].nodes) == Prps(s.sqs[q].nodes) +
                   if NeedsPrps(r) && Recipient(r) == NodeOn(q) then [s.next] else []
  {
    hide Prps;
    var n := Node(r.cid, r.op, TargetOf(r), if NeedsPrps(r) && TargetOf(r) == 0 then Some(s.next) else None);
    AppendPrps(s.sqs[r.sqid].nodes, n);
  }

  lemma {:induction false} SubmitQueueOwners(s: State, r: Request)
    requires Shape(s) && CleanCreate(r) && Submit(s, r).1 == 0
    ensures var t := Submit(s, r).0;
            && t.sqs.Keys == s.sqs.Keys && t.cqs.Keys == s.cqs.Keys
            && (forall q :: q in t.sqs ==>
                 t.sqs[q].prps == if NeedsPrps(r) && Recipient(r) == SqItself(q) then Some(s.next) else s.sqs[q].prps)
            && (forall q :: q in t.cqs ==>
                 t.cqs[q].prps == if NeedsPrps(r) && Recipient(r) == CqItself(q) then Some(s.next) else s.cqs[q].prps)
            && (NeedsPrps(r) && Recipient(r).SqItself? ==> Recipient(r).id in s.sqs && s.sqs[Recipient(r).id].prps == None)
            && (NeedsPrps(r) && Recipient(r).CqItself? ==> Recipient(r).id in s.cqs && s.cqs[Recipient(r).id].prps == None)
            && (NeedsPrps(r) && Recipient(r).NodeOn? ==> Recipient(r).sq in s.sqs)
  {
  }

  lemma {:induction false} SubmitGrows(s: State, r: Request)
    requires Shape(s) && CleanCreate(r) && Submit(s, r).1 == 0
    ensures Grown(s, Submit(s, r).0, NeedsPrps(r), Recipient(r))
  {
    hide Submit, Prps, Shape, Recipient, NeedsPrps;
    SubmitLists(s, r);
    SubmitQueueOwners(s, r);
  }

  lemma {:induction false} SubmitInv(s: State, owner: map<nat, Owner>, r: Request) returns (owner': map<nat, Owner>)
    requires Inv(s, owner) && CleanCreate(r)
    ensures Inv(Submit(s, r).0, owner')
  {
    if Submit(s, r).1 != 0 {
      owner' := owner;
    } else {
      SubmitShape(s, r);
      owner' := if NeedsPrps(r) then owner[s.next := Recipient(r)] else owner;
      SubmitGrows(s, r);
      AfterSubmit(s, owner, Submit(s, r).0, NeedsPrps(r), Recipient(r), owner');
    }
  }

  /** `t` is `s` with one new page set, given to `to`, or with none if `one` is false. */
  ghost predicate Grown(s: State, t: State, one: bool, to: Owner) {
    && t.sqs.Keys == s.sqs.Keys && t.cqs.Keys == s.cqs.Keys
    && t.released == s.released && t.next == s.next + (if one then 1 else 0)
    && (forall q :: q in t.sqs ==>
         && Prps(t.sqs[q].nodes) == Prps(s.sqs[q].nodes) + (if one && to == NodeOn(q) then [s.next] else [])
         && t.sqs[q].prps == if one && to == SqItself(q) then Some(s.next) else s.sqs[q].prps)
    && (forall q :: q in t.cqs ==>
         t.cqs[q].prps == if one && to == CqItself(q) then Some(s.next) else s.cqs[q].prps)
    && (one ==> match to
                case NodeOn(q) => q in s.sqs
                case SqItself(q) => q in s.sqs && s.sqs[q].prps == None
                case CqItself(q) => q in s.cqs && s.cqs[q].prps == None)
  }

  lemma {:induction false} GrownOwns(s: State, t: State, one: bool, to: Owner, o: Owner, p: nat)
    requires Grown(s, t, one, to)
    ensures Owns(t, o, p) <==> Owns(s, o, p) || (one && p == s.next && o == to)
  {
    hide Prps;
    if o.NodeOn? && o.sq in s.sqs {
      assert p in Prps(t.sqs[o.sq].nodes) <==> p in Prps(s.sqs[o.sq].nodes) || (one && to == o && p == s.next);
    }
  }

  lemma {:induction false} GrownNoDup(s: State, owner: map<nat, Owner>, t: State, one: bool, to: Owner, q: nat)
    requires Inv(s, owner) && Grown(s, t, one, to) && q in t.sqs
    ensures Distinct(Prps(t.sqs[q].nodes))
  {
    hide Prps, Shape;
    if one && to == NodeOn(q) {
      NotYetOwned(s, owner);
      assert !Owns(s, NodeOn(q), s.next);
      DistinctConcat(Prps(s.sqs[q].nodes), [s.next]);
    } else {
      assert Prps(s.sqs[q].nodes) + [] == Prps(s.sqs[q].nodes);
    }
  }

  lemma {:induction false} AfterSubmit(s: State, owner: map<nat, Owner>, t: State, one: bool, to: Owner, owner': map<nat, Owner>)
    requires Inv(s, owner) && Shape(t) && Grown(s, t, one, to)
    requires owner' == if one then owner[s.next := to] else owner
    ensures Inv(t, owner')
  {
    hide Prps, Shape, Owns, Distinct;
    NotYetOwned(s, owner);
    forall q | q in t.sqs ensures Distinct(Prps(t.sqs[q].nodes)) {
      GrownNoDup(s, owner, t, one, to, q);
    }
    forall o: Owner, p: nat ensures Owns(t, o, p) <==> Owns(s, o, p) || (one && p == s.next && o == to) {
      GrownOwns(s, t, one, to, o, p);
    }
  }

  // ----- completions

  lemma {:induction false} CompleteInv(s: State, owner: map<nat, Owner>, sqid: nat, cid: nat, status: nat) returns (owner': map<nat, Owner>)
    requires Inv(s, owner)
    ensures Inv(Complete(s, sqid, cid, status).0, owner')
  {
    owner' := owner;
    if sqid in s.sqs {
      var nodes := s.sqs[sqid].nodes;
      var k := Find(nodes, cid);
      if k < |nodes| {
        var n := nodes[k];
        if sqid == 0 && n.op != Other {
          if FreesQueue(n.op, status) && n.target != 0 {
            if n.op == CreateSq || n.op == DeleteSq {
              if n.target in s.sqs {
                owner' := ReleaseSqInv(s, owner, n.target);
              }
              DropEmptyNode(DeleteSqById(s, n.target), owner', k);
            } else {
              if n.target in s.cqs {
                owner' := ReleaseCqInv(s, owner, n.target);
              }
              DropEmptyNode(DeleteCqById(s, n.target), owner', k);
            }
          } else {
            DropEmptyNode(s, owner, k);
          }
        } else {
          owner' := DropOwningNode(s, owner, sqid, k);
        }
      }
    }
  }

  lemma {:induction false} DropEmptyNode(s: State, owner: map<nat, Owner>, k: nat)
    requires Inv(s, owner) && 0 in s.sqs && k < |s.sqs[0].nodes| && s.sqs[0].nodes[k].op != Other
    ensures Inv(DropNode(s, 0, k), owner)
  {
    hide Prps;
    var t := DropNode(s, 0, k);
    DropPrps(s.sqs[0].nodes, k);
    forall o: Owner, p: nat ensures Owns(t, o, p) <==> Owns(s, o, p) {}
  }

  lemma {:induction false} DropOwningNode(s: State, owner: map<nat, Owner>, id: nat, k: nat) returns (owner': map<nat, Owner>)
    requires Inv(s, owner) && id in s.sqs && k < |s.sqs[id].nodes|
    ensures Inv(DropNode(s.(released := s.released + Held(s.sqs[id].nodes[k].prps)), id, k), owner')
  {
    hide Prps;
    var nodes := s.sqs[id].nodes;
    var gone := Held(nodes[k].prps);
    var t := DropNode(s.(released := s.released + gone), id, k);
    DropPrps(nodes, k);
    PrpsMember(nodes, k);
    forall p | p in gone ensures p in owner && owner[p] == NodeOn(id) {
      assert Owns(s, NodeOn(id), p);
    }
    forall o: Owner, p: nat ensures Owns(t, o, p) <==> Owns(s, o, p) && p !in gone {
      assert Owns(s, o, p) <==> p in owner && owner[p] == o;
    }
    owner' := ReleaseInv(s, owner, t, gone);
  }

  // ----- runs

  datatype Step =
    | PrepSq(p: Prep, h: Host)
    | PrepCq(p: Prep, h: Host)
    | SubmitCmd(r: Request)
    | Completion(sqid: nat, cid: nat, status: nat)
    | DropAll(saveAdmin: bool)

  ghost predicate Enabled(s: State, step: Step) {
    match step
    case PrepSq(p, _) => p.id < U16
    case PrepCq(p, _) => p.id < U16
    case SubmitCmd(r) => CleanCreate(r)
    case Completion(_, _, _) => true
    case DropAll(_) => true
  }

  function Next(s: State, step: Step): State {
    match step
    case PrepSq(p, h) => PrepareSq(s, p, h).0
    case PrepCq(p, h) => PrepareCq(s, p, h).0
    case SubmitCmd(r) => Submit(s, r).0
    case Completion(sqid, cid, status) => Complete(s, sqid, cid, status).0
    case DropAll(save) => DeleteAll(s, save)
  }

  lemma {:induction false} PrepareInv(s: State, owner: map<nat, Owner>, p: Prep, h: Host)
    requires Inv(s, owner) && p.id < U16
    ensures Inv(PrepareSq(s, p, h).0, owner)
    ensures Inv(PrepareCq(s, p, h).0, owner)
  {
    hide Shape, Distinct, Prps;
    UnboundIsUndone(s, p);
    PrepareGrows(s, p, h);
    EmptyPrps();
    var t, t' := PrepareSq(s, p, h).0, PrepareCq(s, p, h).0;
    forall o: Owner, q: nat ensures Owns(t, o, q) <==> Owns(s, o, q) {}
    forall o: Owner, q: nat ensures Owns(t', o, q) <==> Owns(s, o, q) {}
  }

  /** Releasing a completion queue that was just prepared leaves everything as it was. */
  lemma {:induction false} UnboundIsUndone(s: State, p: Prep)
    ensures p.id !in s.cqs ==> ReleaseCq(s.(cqs := s.cqs[p.id := Cq(p.elements, p.contig, false, None)]), p.id) == s
  {
    if p.id !in s.cqs {
      assert s.cqs[p.id := Cq(p.elements, p.contig, false, None)] - {p.id} == s.cqs;
      assert s.released + [] == s.released;
    }
  }

  lemma {:induction false} EmptyPrps()
    ensures Prps([]) == [] && Distinct<nat>([])
  {
  }

  lemma {:induction false} PrepareGrows(s: State, p: Prep, h: Host)
    requires Shape(s) && p.id < U16
    ensures Shape(PrepareSq(s, p, h).0) && Shape(PrepareCq(s, p, h).0)
  {
    UnboundIsUndone(s, p);
  }

  lemma {:induction false} StepInv(s: State, owner: map<nat, Owner>, step: Step) returns (owner': map<nat, Owner>)
    requires Inv(s, owner) && Enabled(s, step)
    ensures Inv(Next(s, step), owner')
  {
    match step
    case PrepSq(p, h) =>
      owner' := owner;
      PrepareInv(s, owner, p, h);
    case PrepCq(p, h) =>
      owner' := owner;
      PrepareInv(s, owner, p, h);
    case SubmitCmd(r) => owner' := SubmitInv(s, owner, r);
    case Completion(sqid, cid, status) => owner' := CompleteInv(s, owner, sqid, cid, status);
    case DropAll(save) =>
      owner' := SweepSqsInv(s, owner, 0, save);
      owner' := SweepCqsInv(SweepSqs(s, 0, save), owner', 0, save);
  }

  ghost predicate Run(states: seq<State>, steps: seq<Step>) {
    && |states| == |steps| + 1
    && states[0] == State(map[], map[], 0, [])
    && forall i :: 0 <= i < |steps| ==> Enabled(states[i], steps[i]) && states[i + 1] == Next(states[i], steps[i])
  }

  lemma {:induction false} RunInv(states: seq<State>, steps: seq<Step>, i: nat) returns (owner: map<nat, Owner>)
    requires Run(states, steps) && i < |states|
    ensures Inv(states[i], owner)
  {
    if i == 0 {
      owner := map[];
    } else {
      var before := RunInv(states, steps, i - 1);
      owner := StepInv(states[i - 1], before, steps[i - 1]);
    }
  }

  /**
   In every run each page set ever allocated is either released, exactly once, or has exactly one
   owner.
   */
  lemma {:induction false} OneOwnerReleasedOnce(states: seq<State>, steps: seq<Step>, i: nat, p: nat)
    requires Run(states, steps) && i < |states| && p < states[i].next
    ensures Distinct(states[i].released)
    ensures p in states[i].released <==> !exists o :: Owns(states[i], o, p)
    ensures forall o, o' :: Owns(states[i], o, p) && Owns(states[i], o', p) ==> o == o'
    ensures forall q, j, k :: q in states[i].sqs && 0 <= j < k < |states[i].sqs[q].nodes| ==>
              states[i].sqs[q].nodes[j].prps == Some(p) ==> states[i].sqs[q].nodes[k].prps != Some(p)
  {
    var owner := RunInv(states, steps, i);
    if p !in states[i].released {
      assert Owns(states[i], owner[p], p);
    }
    forall q, j, k | q in states[i].sqs && 0 <= j < k < |states[i].sqs[q].nodes|
      ensures states[i].sqs[q].nodes[j].prps == Some(p) ==> states[i].sqs[q].nodes[k].prps != Some(p)
    {
      assert Distinct(Prps(states[i].sqs[q].nodes));
      HeldOnce(states[i].sqs[q].nodes, j, k, p);
    }
  }

  /** A page set is held by one node of a list at most. */
  lemma {:induction false} HeldOnce(nodes: seq<Node>, j: nat, k: nat, p: nat)
    requires Distinct(Prps(nodes)) && j < k < |nodes|
    ensures nodes[j].prps == Some(p) ==> nodes[k].prps != Some(p)
  {
    hide Prps, Distinct;
    PrpsSplit(nodes, k);
    if nodes[j].prps == Some(p) {
      PrpsMember(nodes[..k], j);
      FoundOnce(Prps(nodes[..k]), Held(nodes[k].prps), Prps(nodes[k + 1..]), p);
    }
  }

  lemma {:induction false} FoundOnce(a: seq<nat>, m: seq<nat>, b: seq<nat>, p: nat)
    requires Distinct(a + m + b) && p in a
    ensures p !in m
  {
    var i :| 0 <= i < |a| && a[i] == p;
    forall j | 0 <= j < |m| ensures m[j] != p {
      assert (a + m + b)[i] != (a + m + b)[|a| + j];
    }
  }

  /** Dropping every queue, admin queues included, leaves no page set unreleased. */
  lemma {:induction false} DropAllReleasesEverything(states: seq<State>, steps: seq<Step>, i: nat, p: nat)
    requires Run(states, steps) && i < |steps| && steps[i] == DropAll(false) && p < states[i + 1].next
    ensures p in states[i + 1].released
  {
    OneOwnerReleasedOnce(states, steps, i + 1, p);
    var owner := RunInv(states, steps, i);
    SweptSqs(states[i], 0, false);
    SweptCqs(SweepSqs(states[i], 0, false), 0, false);
  }

  /** What sweeping a submission queue releases: its nodes' sets, and its own unless it stays or is contiguous. */
  ghost predicate ShedBySq(sq: Sq, stays: bool, p: nat) {
    p in Prps(sq.nodes) || (!stays && !sq.contig && sq.prps == Some(p))
  }

  ghost predicate ShedByCq(cq: Cq, stays: bool, p: nat) {
    !stays && !cq.contig && cq.prps == Some(p)
  }

  /** Some submission queue from `id` on sheds the set. */
  ghost predicate ShedBySqs(s: State, id: nat, save: bool, p: nat) {
    exists q :: q in s.sqs && id <= q && ShedBySq(s.sqs[q], save && q == 0, p)
  }

  ghost predicate ShedByCqs(s: State, id: nat, save: bool, p: nat) {
    exists q :: q in s.cqs && id <= q && ShedByCq(s.cqs[q], save && q == 0, p)
  }

  /** The sweep from `id` on: which queues stay and how, and exactly which page sets it releases. */
  lemma {:induction false} SweptSqs(s: State, id: nat, save: bool)
    requires id <= U16 && forall q :: q in s.sqs ==> q < U16
    ensures var t := SweepSqs(s, id, save);
            && t.cqs == s.cqs && t.next == s.next && s.released <= t.released
            && (forall q :: q in t.sqs <==> q in s.sqs && (q < id || (save && q == 0)))
            && (forall q :: q in t.sqs ==> t.sqs[q] == if q < id then s.sqs[q] else s.sqs[q].(nodes := []))
            && (forall p :: p in t.released <==> p in s.released || ShedBySqs(s, id, save, p))
    decreases U16 - id
  {
    hide Prps;
    if id < U16 {
      var u := SweepSq(s, id, save);
      SweptSqs(u, id + 1, save);
      assert s.released <= u.released;
      forall p ensures p in u.released || ShedBySqs(u, id + 1, save, p) <==> p in s.released || ShedBySqs(s, id, save, p) {
        SweepOneSq(s, id, save, p);
      }
    }
  }

  lemma {:induction false} SweepOneSq(s: State, id: nat, save: bool, p: nat)
    ensures var u := SweepSq(s, id, save);
            p in u.released || ShedBySqs(u, id + 1, save, p) <==> p in s.released || ShedBySqs(s, id, save, p)
  {
    hide Prps;
    var u := SweepSq(s, id, save);
    assert p in u.released <==> p in s.released || (id in s.sqs && ShedBySq(s.sqs[id], save && id == 0, p));
    if ShedBySqs(u, id + 1, save, p) {
      var q :| q in u.sqs && id + 1 <= q && ShedBySq(u.sqs[q], save && q == 0, p);
      assert q in s.sqs && s.sqs[q] == u.sqs[q];
    }
    if ShedBySqs(s, id, save, p) {
      var q :| q in s.sqs && id <= q && ShedBySq(s.sqs[q], save && q == 0, p);
      if q != id {
        assert q in u.sqs && u.sqs[q] == s.sqs[q];
      }
    }
  }

  lemma {:induction false} SweptCqs(s: State, id: nat, save: bool)
    requires id <= U16 && forall q :: q in s.cqs ==> q < U16
    ensures var t := SweepCqs(s, id, save);
            && t.sqs == s.sqs && t.next == s.next && s.released <= t.released
            && (forall q :: q in t.cqs <==> q in s.cqs && (q < id || (save && q == 0)))
            && (forall q :: q in t.cqs ==> t.cqs[q] == s.cqs[q])
            && (forall p :: p in t.released <==> p in s.released || ShedByCqs(s, id, save, p))
    decreases U16 - id
  {
    if id < U16 {
      var u := SweepCq(s, id, save);
      SweptCqs(u, id + 1, save);
      assert s.released <= u.released;
      forall p ensures p in u.released || ShedByCqs(u, id + 1, save, p) <==> p in s.released || ShedByCqs(s, id, save, p) {
        SweepOneCq(s, id, save, p);
      }
    }
  }

  lemma {:induction false} SweepOneCq(s: State, id: nat, save: bool, p: nat)
    ensures var u := SweepCq(s, id, save);
            p in u.released || ShedByCqs(u, id + 1, save, p) <==> p in s.released || ShedByCqs(s, id, save, p)
  {
    var u := SweepCq(s, id, save);
    assert p in u.released <==> p in s.released || (id in s.cqs && ShedByCq(s.cqs[id], save && id == 0, p));
    if ShedByCqs(u, id + 1, save, p) {
      var q :| q in u.cqs && id + 1 <= q && ShedByCq(u.cqs[q], save && q == 0, p);
      assert q in s.cqs && s.cqs[q] == u.cqs[q];
    }
    if ShedByCqs(s, id, save, p) {
      var q :| q in s.cqs && id <= q && ShedByCq(s.cqs[q], save && q == 0, p);
      if q != id {
        assert q in u.cqs && u.cqs[q] == s.cqs[q];
      }
    }
  }

  /**
   Dropping the queues: all go, except the admin pair if it is kept, whose submission queue stays
   with its settings and without commands. Released are exactly the sets held by any command node,
   and by any discontiguous queue that goes.
   */
  lemma {:induction false} DropAllExactly(s: State, save: bool)
    requires (forall q :: q in s.sqs ==> q < U16) && forall q :: q in s.cqs ==> q < U16
    ensures var t := DeleteAll(s, save);
            && (forall q :: q in t.sqs <==> q in s.sqs && save && q == 0)
            && (forall q :: q in t.cqs <==> q in s.cqs && save && q == 0)
            && (0 in t.sqs ==> t.sqs[0] == s.sqs[0].(nodes := []))
            && (0 in t.cqs ==> t.cqs[0] == s.cqs[0])
            && s.released <= t.released && t.next == s.next
            && (forall p :: p in t.released <==> p in s.released || ShedBySqs(s, 0, save, p) || ShedByCqs(s, 0, save, p))
  {
    hide ShedBySq, ShedByCq;
    SweptSqs(s, 0, save);
    var m := SweepSqs(s, 0, save);
    SweptCqs(m, 0, save);
    assert forall p :: ShedByCqs(m, 0, save, p) <==> ShedByCqs(s, 0, save, p);
  }

  /** In every run, keeping the admin pair still releases what every command and every other queue held. */
  lemma {:induction false} KeepAdminReleasesTheRest(states: seq<State>, steps: seq<Step>, i: nat, p: nat)
    requires Run(states, steps) && i < |steps| && steps[i] == DropAll(true)
    ensures var s, t := states[i], states[i + 1];
            && (0 in s.sqs ==> 0 in t.sqs && t.sqs[0] == s.sqs[0].(nodes := []))
            && (0 in s.cqs ==> 0 in t.cqs && t.cqs[0] == s.cqs[0])
            && (forall q :: Owns(s, NodeOn(q), p) ==> p in t.released)
            && (forall q :: q != 0 && (Owns(s, SqItself(q), p) || Owns(s, CqItself(q), p)) ==> p in t.released)
  {
    hide Prps;
    var s, t := states[i], states[i + 1];
    var owner := RunInv(states, steps, i);
    DropAllExactly(s, true);
    forall q | Owns(s, NodeOn(q), p) ensures p in t.released {
      assert ShedBySq(s.sqs[q], q == 0, p);
    }
    forall q | q != 0 && Owns(s, SqItself(q), p) ensures p in t.released {
      assert ShedBySq(s.sqs[q], false, p);
    }
    forall q | q != 0 && Owns(s, CqItself(q), p) ensures p in t.released {
      assert ShedByCq(s.cqs[q], false, p);
    }
  }

  // ----- exactly the target queue

  /** A create that failed, or a delete that succeeded. */
  ghost predicate Frees(n: Node, status: nat) {
    ((n.op == CreateSq || n.op == CreateCq) && status != 0) || ((n.op == DeleteSq || n.op == DeleteCq) && status == 0)
  }

  /**
   A completion drops its own node. On the admin queue a failed create or a successful delete removes
   the queue it names, and no other queue changes; naming queue 0 is an error and removes nothing.
   */
  lemma {:induction false} CompletionTouchesOnlyItsTarget(s: State, sqid: nat, cid: nat, status: nat)
    requires sqid in s.sqs && Find(s.sqs[sqid].nodes, cid) < |s.sqs[sqid].nodes|
    ensures var k := Find(s.sqs[sqid].nodes, cid);
            var n := s.sqs[sqid].nodes[k];
            var (t, ret) := Complete(s, sqid, cid, status);
            var frees := sqid == 0 && Frees(n, status) && n.target != 0;
            && ret == (if sqid == 0 && Frees(n, status) && n.target == 0 then EINVAL else 0)
            && (forall q :: q in t.sqs <==> q in s.sqs && !(frees && (n.op == CreateSq || n.op == DeleteSq) && q == n.target))
            && (forall q :: q in t.cqs <==> q in s.cqs && !(frees && (n.op == CreateCq || n.op == DeleteCq) && q == n.target))
            && (forall q :: q in t.sqs && q != sqid ==> t.sqs[q] == s.sqs[q])
            && (forall q :: q in t.cqs ==> t.cqs[q] == s.cqs[q])
            && sqid in t.sqs && t.sqs[sqid] == s.sqs[sqid].(nodes := Without(s.sqs[sqid].nodes, k)) && t.next == s.next
  {
    hide Find, Held, Prps;
    var k := Find(s.sqs[sqid].nodes, cid);
    var n := s.sqs[sqid].nodes[k];
    if sqid == 0 && Frees(n, status) && n.target != 0 {
      if n.op == CreateSq || n.op == DeleteSq {
        assert Complete(s, sqid, cid, status) == (DropNode(DeleteSqById(s, n.target), sqid, k), 0);
      } else {
        assert Complete(s, sqid, cid, status) == (DropNode(DeleteCqById(s, n.target), sqid, k), 0);
      }
    }
  }

  /** A completion of an unknown queue, or with an id no node of its queue has, is an error and changes nothing. */
  lemma {:induction false} UnknownCompletion(s: State, sqid: nat, cid: nat, status: nat)
    requires sqid in s.sqs ==> forall k :: 0 <= k < |s.sqs[sqid].nodes| ==> s.sqs[sqid].nodes[k].cid != cid
    ensures Complete(s, sqid, cid, status) == (s, EBADSLT)
  {
    if sqid in s.sqs {
      var k := Find(s.sqs[sqid].nodes, cid);
      assert k == |s.sqs[sqid].nodes|;
    }
  }

  // ----- several completions in one reap

  /** A batch is a series of completions, so it keeps the ownership. */
  lemma {:induction false} BatchInv(s: State, owner: map<nat, Owner>, batch: seq<Cqe>) returns (owner': map<nat, Owner>)
    requires Inv(s, owner)
    ensures Inv(CompleteAll(s, batch).0, owner')
    decreases |batch|
  {
    hide Inv, Complete;
    owner' := owner;
    if batch != [] {
      var c := batch[0];
      owner' := CompleteInv(s, owner, c.sqid, c.cid, c.status);
      if Complete(s, c.sqid, c.cid, c.status).1 == 0 {
        owner' := BatchInv(Complete(s, c.sqid, c.cid, c.status).0, owner', batch[1..]);
      }
    }
  }

  /** The entries handled one by one, whatever each of them answers. */
  ghost function EachOf(s: State, batch: seq<Cqe>): State
    decreases |batch|
  {
    if batch == [] then s else EachOf(Complete(s, batch[0].sqid, batch[0].cid, batch[0].status).0, batch[1..])
  }

  /** What entry `i` answers when those before it have been handled. */
  ghost function Answer(s: State, batch: seq<Cqe>, i: nat): int
    requires i < |batch|
  {
    Complete(EachOf(s, batch[..i]), batch[i].sqid, batch[i].cid, batch[i].status).1
  }

  /** A reap handles entries in order through the first that fails, and answers what the last one did. */
  lemma {:induction false} BatchStopsAtFailure(s: State, batch: seq<Cqe>)
    ensures var (t, reaped, ret) := CompleteAll(s, batch);
            && reaped <= |batch| && t == EachOf(s, batch[..reaped])
            && (forall i :: 0 <= i < reaped - 1 ==> Answer(s, batch, i) == 0)
            && ret == (if reaped > 0 then Answer(s, batch, reaped - 1) else 0)
            && (ret == 0 <==> forall i :: 0 <= i < |batch| ==> Answer(s, batch, i) == 0)
            && (ret == 0 ==> reaped == |batch|) && (batch != [] ==> reaped > 0)
    decreases |batch|
  {
    hide Complete;
    if batch != [] {
      var c, rest := batch[0], batch[1..];
      var (s', ret) := Complete(s, c.sqid, c.cid, c.status);
      assert Answer(s, batch, 0) == ret by { assert batch[..0] == []; }
      assert EachOf(s, batch[..1]) == s' by { assert batch[..1][1..] == []; }
      forall i | 0 < i < |batch| ensures Answer(s, batch, i) == Answer(s', rest, i - 1) {
        assert batch[..i][1..] == rest[..i - 1];
      }
      if ret == 0 {
        var n := CompleteAll(s', rest).1;
        BatchStopsAtFailure(s', rest);
        assert batch[..n + 1][1..] == rest[..n];
        assert forall i :: 0 <= i < |rest| ==> Answer(s, batch, i + 1) == Answer(s', rest, i);
      }
    }
  }

  /** Completions never bring a submission queue into the table. */
  lemma {:induction false} CompletionAddsNoQueue(s: State, c: Cqe, q: nat)
    requires q !in s.sqs
    ensures q !in Complete(s, c.sqid, c.cid, c.status).0.sqs
  {
    if c.sqid in s.sqs && Find(s.sqs[c.sqid].nodes, c.cid) < |s.sqs[c.sqid].nodes| {
      CompletionTouchesOnlyItsTarget(s, c.sqid, c.cid, c.status);
    }
  }

  /** An entry for a queue that is gone ends the reap: it is the last one handled, if the reap gets to it. */
  lemma {:induction false} GoneQueueEndsReap(s: State, batch: seq<Cqe>, j: nat)
    requires j < |batch| && batch[j].sqid !in s.sqs
    ensures var (t, reaped, ret) := CompleteAll(s, batch);
            reaped <= j + 1 && ret != 0 && (reaped == j + 1 ==> ret == EBADSLT)
    decreases |batch|
  {
    if j > 0 {
      var c := batch[0];
      CompletionAddsNoQueue(s, c, batch[j].sqid);
      hide Complete;
      GoneQueueEndsReap(Complete(s, c.sqid, c.cid, c.status).0, batch[1..], j - 1);
    }
  }

  /**
   So when an entry of a batch frees a submission queue, a later entry of the same batch for that
   queue turns the reap into a partial one: it is reported, with EBADSLT, and nothing after it is handled.
   */
  lemma {:induction false} RemovalEndsReap(s: State, batch: seq<Cqe>, j: nat)
    requires 0 < j < |batch| && batch[0].sqid == 0 && 0 in s.sqs
    requires Find(s.sqs[0].nodes, batch[0].cid) < |s.sqs[0].nodes|
    requires var n := s.sqs[0].nodes[Find(s.sqs[0].nodes, batch[0].cid)];
             (n.op == CreateSq || n.op == DeleteSq) && Frees(n, batch[0].status) && n.target != 0 && batch[j].sqid == n.target
    ensures var (t, reaped, ret) := CompleteAll(s, batch);
            1 < reaped <= j + 1 && ret != 0 && (reaped == j + 1 ==> ret == EBADSLT)
  {
    var c := batch[0];
    CompletionTouchesOnlyItsTarget(s, 0, c.cid, c.status);
    GoneQueueEndsReap(Complete(s, 0, c.cid, c.status).0, batch[1..], j - 1);
  }

  // ----- the condition is exact

  /** Allocated, owned by nobody and not released. */
  ghost predicate Lost(s: State, p: nat) {
    p < s.next && p !in s.released && forall o :: !Owns(s, o, p)
  }

  /** A step that neither releases a lost page set nor hands it to anybody leaves it lost. */
  lemma {:induction false} StillLost(s: State, t: State, p: nat)
    requires Lost(s, p) && s.next <= t.next && p !in t.released
    requires forall q :: q in t.sqs && p in Prps(t.sqs[q].nodes) ==> q in s.sqs && p in Prps(s.sqs[q].nodes)
    requires forall q :: q in t.sqs && t.sqs[q].prps == Some(p) ==> q in s.sqs && s.sqs[q].prps == Some(p)
    requires forall q :: q in t.cqs && t.cqs[q].prps == Some(p) ==> q in s.cqs && s.cqs[q].prps == Some(p)
    ensures Lost(t, p)
  {
    hide Prps;
    forall o: Owner ensures !Owns(t, o, p) {
      assert !Owns(s, o, p);
    }
  }

  lemma {:induction false} LostReleaseSq(s: State, p: nat, id: nat)
    requires Lost(s, p) && id in s.sqs
    ensures Lost(ReleaseSq(s, id), p) && Lost(ReinitSq(s, id), p)
  {
    hide Prps;
    EmptyPrps();
    assert !Owns(s, NodeOn(id), p) && !Owns(s, SqItself(id), p);
    StillLost(s, ReleaseSq(s, id), p);
    StillLost(s, ReinitSq(s, id), p);
  }

  lemma {:induction false} LostReleaseCq(s: State, p: nat, id: nat)
    requires Lost(s, p) && id in s.cqs
    ensures Lost(ReleaseCq(s, id), p)
  {
    hide Prps;
    assert !Owns(s, CqItself(id), p);
    StillLost(s, ReleaseCq(s, id), p);
  }

  lemma {:induction false} LostSweepSqs(s: State, p: nat, id: nat, save: bool)
    requires Lost(s, p) && id <= U16
    ensures Lost(SweepSqs(s, id, save), p)
    decreases U16 - id
  {
    hide Lost, ReleaseSq, ReinitSq;
    if id < U16 {
      if id in s.sqs {
        LostReleaseSq(s, p, id);
      }
      LostSweepSqs(SweepSq(s, id, save), p, id + 1, save);
    }
  }

  lemma {:induction false} LostSweepCqs(s: State, p: nat, id: nat, save: bool)
    requires Lost(s, p) && id <= U16
    ensures Lost(SweepCqs(s, id, save), p)
    decreases U16 - id
  {
    hide Lost, ReleaseCq;
    if id < U16 {
      if id in s.cqs {
        LostReleaseCq(s, p, id);
      }
      LostSweepCqs(SweepCq(s, id, save), p, id + 1, save);
    }
  }

  lemma {:induction false} LostPrepare(s: State, p: nat, prep: Prep, h: Host)
    requires Lost(s, p)
    ensures Lost(PrepareSq(s, prep, h).0, p) && Lost(PrepareCq(s, prep, h).0, p)
  {
    hide Prps;
    EmptyPrps();
    UnboundIsUndone(s, prep);
    StillLost(s, PrepareSq(s, prep, h).0, p);
    StillLost(s, PrepareCq(s, prep, h).0, p);
  }

  lemma {:induction false} LostWithNode(s: State, p: nat, id: nat, n: Node)
    requires Lost(s, p) && id in s.sqs && n.prps != Some(p)
    ensures Lost(WithNode(s, id, n), p)
  {
    hide Prps;
    AppendPrps(s.sqs[id].nodes, n);
    StillLost(s, WithNode(s, id, n), p);
  }

  lemma {:induction false} LostSubmit(s: State, p: nat, r: Request)
    requires Lost(s, p)
    ensures Lost(Submit(s, r).0, p)
  {
    hide Prps, WithNode;
    if Submit(s, r).1 == 0 && r.sqid in s.sqs && r.prepared == 0 {
      LostAddNode(s, p, r);
      StillLost(AddNode(s, r), MarkCreated(AddNode(s, r), r), p);
    }
  }

  lemma {:induction false} LostAddNode(s: State, p: nat, r: Request)
    requires Lost(s, p) && r.sqid in s.sqs
    requires r.sqid == 0 && r.op == CreateSq ==> r.target in s.sqs
    requires r.sqid == 0 && r.op == CreateCq ==> r.target in s.cqs
    ensures Lost(AddNode(s, r), p)
  {
    hide Prps, WithNode;
    var target, t := TargetOf(r), s.(next := s.next + 1);
    StillLost(s, t, p);
    if !NeedsPrps(r) {
      LostWithNode(s, p, r.sqid, Node(r.cid, r.op, target, None));
    } else if target == 0 {
      LostWithNode(t, p, r.sqid, Node(r.cid, r.op, target, Some(s.next)));
    } else if r.op == CreateSq {
      var u := t.(sqs := t.sqs[target := t.sqs[target].(prps := Some(s.next))]);
      StillLost(t, u, p);
      LostWithNode(u, p, r.sqid, Node(r.cid, r.op, target, None));
    } else {
      var u := t.(cqs := t.cqs[target := t.cqs[target].(prps := Some(s.next))]);
      StillLost(t, u, p);
      LostWithNode(u, p, r.sqid, Node(r.cid, r.op, target, None));
    }
  }

  lemma {:induction false} LostDropNode(s: State, p: nat, id: nat, k: nat)
    requires Lost(s, p) && id in s.sqs && k < |s.sqs[id].nodes|
    ensures Lost(DropNode(s, id, k), p)
    ensures Lost(s.(released := s.released + Held(s.sqs[id].nodes[k].prps)), p)
  {
    hide Prps;
    var nodes := s.sqs[id].nodes;
    PrpsSplit(nodes, k);
    PrpsMember(nodes, k);
    assert !Owns(s, NodeOn(id), p);
    StillLost(s, DropNode(s, id, k), p);
    StillLost(s, s.(released := s.released + Held(nodes[k].prps)), p);
  }

  lemma {:induction false} LostComplete(s: State, p: nat, sqid: nat, cid: nat, status: nat)
    requires Lost(s, p)
    ensures Lost(Complete(s, sqid, cid, status).0, p)
  {
    hide Lost, ReleaseSq, ReleaseCq, DropNode, Held;
    if sqid in s.sqs {
      var nodes := s.sqs[sqid].nodes;
      var k := Find(nodes, cid);
      if k < |nodes| {
        var n := nodes[k];
        LostDropNode(s, p, sqid, k);
        if sqid == 0 && n.op != Other {
          if FreesQueue(n.op, status) && n.target != 0 {
            if n.target in s.sqs {
              LostReleaseSq(s, p, n.target);
              OthersStay(s, n.target);
              LostDropNode(DeleteSqById(s, n.target), p, sqid, k);
            }
            if n.target in s.cqs {
              LostReleaseCq(s, p, n.target);
              OthersStay(s, n.target);
              LostDropNode(DeleteCqById(s, n.target), p, sqid, k);
            }
          }
        } else {
          LostDropNode(s.(released := s.released + Held(n.prps)), p, sqid, k);
        }
      }
    }
  }

  /** Releasing a queue leaves the admin queue's commands alone. */
  lemma {:induction false} OthersStay(s: State, id: nat)
    requires id != 0 && 0 in s.sqs
    ensures id in s.sqs ==> 0 in ReleaseSq(s, id).sqs && ReleaseSq(s, id).sqs[0] == s.sqs[0]
    ensures id in s.cqs ==> ReleaseCq(s, id).sqs == s.sqs
  {
  }

  /** Nothing the driver can do afterwards brings a lost page set back. */
  lemma {:induction false} LostForever(s: State, p: nat, steps: seq<Step>)
    requires Lost(s, p)
    ensures Lost(After(s, steps), p)
    decreases |steps|
  {
    hide Lost, Submit, Complete, PrepareSq, PrepareCq;
    if steps != [] {
      match steps[0] {
        case PrepSq(prep, h) => LostPrepare(s, p, prep, h);
        case PrepCq(prep, h) => LostPrepare(s, p, prep, h);
        case SubmitCmd(r) => LostSubmit(s, p, r);
        case Completion(sqid, cid, status) => LostComplete(s, p, sqid, cid, status);
        case DropAll(save) =>
          LostSweepSqs(s, p, 0, save);
          LostSweepCqs(SweepSqs(s, 0, save), p, 0, save);
      }
      LostForever(Next(s, steps[0]), p, steps[1..]);
    }
  }

  function After(s: State, steps: seq<Step>): State
    decreases |steps|
  {
    if steps == [] then s else After(Next(s, steps[0]), steps[1..])
  }

  /**
   A create that breaks `CleanCreate` loses its page set: once the queue it names is released, or
   for queue 0 once the command completes, nobody owns the set, and whatever the driver does from
   then on nobody ever owns it again and it is never released.
   */
  lemma {:induction false} UncleanCreateLeaks(s: State, owner: map<nat, Owner>, r: Request, steps: seq<Step>)
    requires Inv(s, owner) && !CleanCreate(r) && Submit(s, r).1 == 0
    requires Find(s.sqs[0].nodes, r.cid) == |s.sqs[0].nodes|
    ensures var t := Submit(s, r).0;
            var status := if r.target == 0 then 0 else 1;
            Lost(After(Complete(t, 0, r.cid, status).0, steps), s.next)
  {
    hide Prps, Complete, Next;
    var t := Submit(s, r).0;
    var nodes := s.sqs[0].nodes;
    var n := Node(r.cid, r.op, r.target, if r.target == 0 then Some(s.next) else None);
    assert t.sqs[0].nodes == nodes + [n];
    FindLast(nodes, n);
    LeakedAfter(s, t, r, n);
    AfterUncleanSubmit(s, t, r);
    var after := Complete(t, 0, r.cid, if r.target == 0 then 0 else 1).0;
    OwnedNowhere(s, owner, after, r);
    LostForever(after, s.next, steps);
  }

  lemma {:induction false} OwnedNowhere(s: State, owner: map<nat, Owner>, after: State, r: Request)
    requires Inv(s, owner) && (r.op == CreateSq && r.target != 0 ==> r.target in s.sqs)
    requires forall q :: q in after.sqs ==> q in s.sqs && after.sqs[q].nodes == s.sqs[q].nodes && after.sqs[q].prps == s.sqs[q].prps
    requires forall q :: q in after.cqs ==> q in s.cqs && after.cqs[q].prps == s.cqs[q].prps
    requires after.released == s.released + (if r.op == CreateSq && r.target != 0 then Prps(s.sqs[r.target].nodes) else [])
    ensures s.next !in after.released && forall o :: !Owns(after, o, s.next)
  {
    hide Prps, Shape, Distinct;
    NotYetOwned(s, owner);
    if r.op == CreateSq && r.target != 0 {
      assert !Owns(s, NodeOn(r.target), s.next);
    }
    forall o: Owner ensures !Owns(after, o, s.next) {
      assert !Owns(s, o, s.next);
    }
  }

  /** What is left of the tables once the create has been submitted and completed. */
  lemma {:induction false} LeakedAfter(s: State, t: State, r: Request, n: Node)
    requires Submit(s, r) == (t, 0) && !CleanCreate(r) && 0 in t.sqs
    requires n.op == r.op && n.target == r.target && n.cid == r.cid
    requires t.sqs[0].nodes == s.sqs[0].nodes + [n] && Find(t.sqs[0].nodes, r.cid) == |s.sqs[0].nodes|
    ensures var after := Complete(t, 0, r.cid, if r.target == 0 then 0 else 1).0;
            && after.next == s.next + 1
            && (forall q :: q in after.sqs ==> q in s.sqs && after.sqs[q].nodes == s.sqs[q].nodes && after.sqs[q].prps == s.sqs[q].prps)
            && (forall q :: q in after.cqs ==> q in s.cqs && after.cqs[q].prps == s.cqs[q].prps)
            && after.released == s.released + (if r.op == CreateSq && r.target != 0 then Prps(s.sqs[r.target].nodes) else [])
  {
    hide Prps, Find, Submit;
    AfterUncleanSubmit(s, t, r);
    var nodes := s.sqs[0].nodes;
    assert (nodes + [n])[..|nodes|] + (nodes + [n])[|nodes| + 1..] == nodes;
    if r.target != 0 && r.op == CreateSq {
      assert t.sqs[r.target].contig && t.sqs[r.target].nodes == s.sqs[r.target].nodes;
    }
  }

  lemma {:induction false} AfterUncleanSubmit(s: State, t: State, r: Request)
    requires Submit(s, r) == (t, 0) && !CleanCreate(r)
    ensures t.next == s.next + 1 && t.released == s.released
    ensures t.sqs.Keys == s.sqs.Keys && t.cqs.Keys == s.cqs.Keys
    ensures r.target != 0 ==> r.contig
    ensures r.op == CreateSq ==> r.target in s.sqs && t.sqs[r.target].contig == r.contig && t.cqs == s.cqs
    ensures r.op == CreateCq ==> r.target in s.cqs && t.cqs[r.target].contig == r.contig
    ensures forall q :: q in s.sqs && q != 0 ==> t.sqs[q].nodes == s.sqs[q].nodes
    ensures forall q :: q in s.sqs && (q != r.target || r.op != CreateSq || r.target == 0) ==> t.sqs[q].prps == s.sqs[q].prps
    ensures forall q :: q in s.cqs && (q != r.target || r.op != CreateCq || r.target == 0) ==> t.cqs[q].prps == s.cqs[q].prps
  {
  }

  lemma {:induction false} FindLast(nodes: seq<Node>, n: Node)
    requires Find(nodes, n.cid) == |nodes|
    ensures Find(nodes + [n], n.cid) == |nodes|
  {
    var k := Find(nodes + [n], n.cid);
    assert (nodes + [n])[|nodes|] == n;
  }
}
