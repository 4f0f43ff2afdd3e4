/**
 What holds of PRP page sets in every run of the driver, whatever creates carry: no set ever has two
 owners, none is released twice, and none is released while it has an owner. A create that carries a
 buffer it should not can only lose a set.
 */
module DeviceAnyRun {
  import opened Wrappers
  import opened Linux
  import opened Sequences
  import opened Device
  import opened DeviceOwnership

  /** `owner` names the only possible owner of every page set; released sets have none. */
  ghost predicate AtMost(s: State, owner: map<nat, Owner>) {
    && Distinct(s.released)
    && (forall q :: q in s.sqs ==> Distinct(Prps(s.sqs[q].nodes)))
    && (forall p :: p in owner ==> p < s.next && p !in s.released)
    && (forall p :: p in s.released ==> p < s.next)
    && (forall o: Owner, p: nat :: Owns(s, o, p) ==> p in owner && owner[p] == o)
  }

  /** Releases `gone`, all of it owned, and hands nothing to anybody else. */
  lemma {:induction false} Released(s: State, owner: map<nat, Owner>, t: State, gone: seq<nat>) returns (owner': map<nat, Owner>)
    requires AtMost(s, owner) && t.next == s.next && t.released == s.released + gone
    requires Distinct(gone) && forall p :: p in gone ==> p in owner
    requires forall q :: q in t.sqs ==> Distinct(Prps(t.sqs[q].nodes))
    requires forall o: Owner, p: nat :: Owns(t, o, p) ==> Owns(s, o, p) && p !in gone
    ensures AtMost(t, owner')
  {
    hide Prps, Owns;
    DistinctConcat(s.released, gone);
    owner' := map p | p in owner && p !in gone :: owner[p];
  }

  /** Nothing is released; at most one new page set gets an owner. */
  lemma {:induction false} Granted(s: State, owner: map<nat, Owner>, t: State, to: Owner) returns (owner': map<nat, Owner>)
    requires AtMost(s, owner) && s.next <= t.next <= s.next + 1 && t.released == s.released
    requires forall q :: q in t.sqs ==> Distinct(Prps(t.sqs[q].nodes))
    requires forall o: Owner, p: nat :: Owns(t, o, p) ==> Owns(s, o, p) || (p == s.next < t.next && o == to)
    ensures AtMost(t, owner')
  {
    hide Prps, Owns;
    owner' := if s.next < t.next then owner[s.next := to] else owner;
  }

  lemma {:induction false} ReleaseSqAtMost(s: State, owner: map<nat, Owner>, id: nat) returns (owner': map<nat, Owner>)
    requires AtMost(s, owner) && id in s.sqs
    ensures AtMost(ReleaseSq(s, id), owner')
  {
    hide Prps;
    var q, t := s.sqs[id], ReleaseSq(s, id);
    var held := if q.contig then [] else Held(q.prps);
    var gone := Prps(q.nodes) + held;
    forall p | p in Prps(q.nodes) ensures p in owner && owner[p] == NodeOn(id) {
      assert Owns(s, NodeOn(id), p);
    }
    forall p | p in held ensures p in owner && owner[p] == SqItself(id) {
      assert Owns(s, SqItself(id), p);
    }
    DistinctConcat(Prps(q.nodes), held);
    forall o: Owner, p: nat | Owns(t, o, p) ensures Owns(s, o, p) && p !in gone {
      assert Owns(s, o, p);
    }
    assert t.released == s.released + gone;
    owner' := Released(s, owner, t, gone);
  }

  lemma {:induction false} ReinitSqAtMost(s: State, owner: map<nat, Owner>, id: nat) returns (owner': map<nat, Owner>)
    requires AtMost(s, owner) && id in s.sqs
    ensures AtMost(ReinitSq(s, id), owner')
  {
    hide Prps;
    EmptyPrps();
    var t, gone := ReinitSq(s, id), Prps(s.sqs[id].nodes);
    forall p | p in gone ensures p in owner && owner[p] == NodeOn(id) {
      assert Owns(s, NodeOn(id), p);
    }
    forall o: Owner, p: nat | Owns(t, o, p) ensures Owns(s, o, p) && p !in gone {
      assert Owns(s, o, p);
    }
    owner' := Released(s, owner, t, gone);
  }

  lemma {:induction false} ReleaseCqAtMost(s: State, owner: map<nat, Owner>, id: nat) returns (owner': map<nat, Owner>)
    requires AtMost(s, owner) && id in s.cqs
    ensures AtMost(ReleaseCq(s, id), owner')
  {
    hide Prps;
    var q, t := s.cqs[id], ReleaseCq(s, id);
    var gone := if q.contig then [] else Held(q.prps);
    forall p | p in gone ensures p in owner && owner[p] == CqItself(id) {
      assert Owns(s, CqItself(id), p);
    }
    forall o: Owner, p: nat | Owns(t, o, p) ensures Owns(s, o, p) && p !in gone {
      assert Owns(s, o, p);
    }
    owner' := Released(s, owner, t, gone);
  }

  lemma {:induction false} SweepSqsAtMost(s: State, owner: map<nat, Owner>, id: nat, save: bool) returns (owner': map<nat, Owner>)
    requires AtMost(s, owner) && id <= U16
    ensures AtMost(SweepSqs(s, id, save), owner')
    decreases U16 - id
  {
    hide AtMost, ReleaseSq, ReinitSq;
    owner' := owner;
    if id < U16 {
      if id in s.sqs {
        if save && id == 0 {
          owner' := ReinitSqAtMost(s, owner, id);
        } else {
          owner' := ReleaseSqAtMost(s, owner, id);
        }
      }
      owner' := SweepSqsAtMost(SweepSq(s, id, save), owner', id + 1, save);
    }
  }

  lemma {:induction false} SweepCqsAtMost(s: State, owner: map<nat, Owner>, id: nat, save: bool) returns (owner': map<nat, Owner>)
    requires AtMost(s, owner) && id <= U16
    ensures AtMost(SweepCqs(s, id, save), owner')
    decreases U16 - id
  {
    hide AtMost, ReleaseCq;
    owner' := owner;
    if id < U16 {
      if id in s.cqs && !(save && id == 0) {
        owner' := ReleaseCqAtMost(s, owner, id);
      }
      owner' := SweepCqsAtMost(SweepCq(s, id, save), owner', id + 1, save);
    }
  }

  lemma {:induction false} PrepareAtMost(s: State, owner: map<nat, Owner>, p: Prep, h: Host) returns (sq': map<nat, Owner>, cq': map<nat, Owner>)
    requires AtMost(s, owner)
    ensures AtMost(PrepareSq(s, p, h).0, sq') && AtMost(PrepareCq(s, p, h).0, cq')
  {
    hide Prps, Distinct;
    EmptyPrps();
    UnboundIsUndone(s, p);
    var t, t' := PrepareSq(s, p, h).0, PrepareCq(s, p, h).0;
    sq' := Granted(s, owner, t, NodeOn(0));
    cq' := Granted(s, owner, t', NodeOn(0));
  }

  // ----- submits

  lemma {:induction false} WithNodeAtMost(s: State, owner: map<nat, Owner>, id: nat, n: Node, t: State) returns (owner': map<nat, Owner>)
    requires AtMost(s, owner) && id in s.sqs && t.released == s.released && t.cqs == s.cqs
    requires t.sqs == WithNode(s, id, n).sqs && t.next == s.next + (if n.prps.Some? then 1 else 0)
    requires n.prps.Some? ==> n.prps.value == s.next
    ensures AtMost(t, owner')
  {
    hide Prps, Distinct;
    var nodes := s.sqs[id].nodes;
    AppendPrps(nodes, n);
    NotOwnedYet(s, owner);
    AppendDistinct(Prps(nodes), Held(n.prps), s.next);
    owner' := Granted(s, owner, t, NodeOn(id));
  }

  lemma {:induction false} AppendDistinct(a: seq<nat>, m: seq<nat>, next: nat)
    requires Distinct(a) && next !in a && (m == [] || m == [next])
    ensures Distinct(a + m)
  {
  }

  lemma {:induction false} NotOwnedYet(s: State, owner: map<nat, Owner>)
    requires AtMost(s, owner)
    ensures forall o :: !Owns(s, o, s.next)
    ensures forall q :: q in s.sqs ==> s.next !in Prps(s.sqs[q].nodes)
  {
    hide Prps;
    forall q | q in s.sqs ensures s.next !in Prps(s.sqs[q].nodes) {
      assert !Owns(s, NodeOn(q), s.next);
    }
  }

  /** Handing the new page set to a queue, whatever it held before. */
  lemma {:induction false} GivenToSq(s: State, owner: map<nat, Owner>, id: nat) returns (owner': map<nat, Owner>)
    requires AtMost(s, owner) && id in s.sqs
    ensures AtMost(s.(next := s.next + 1, sqs := s.sqs[id := s.sqs[id].(prps := Some(s.next))]), owner')
  {
    hide Prps, Distinct;
    owner' := Granted(s, owner, s.(next := s.next + 1, sqs := s.sqs[id := s.sqs[id].(prps := Some(s.next))]), SqItself(id));
  }

  lemma {:induction false} GivenToCq(s: State, owner: map<nat, Owner>, id: nat) returns (owner': map<nat, Owner>)
    requires AtMost(s, owner) && id in s.cqs
    ensures AtMost(s.(next := s.next + 1, cqs := s.cqs[id := s.cqs[id].(prps := Some(s.next))]), owner')
  {
    hide Prps, Distinct;
    owner' := Granted(s, owner, s.(next := s.next + 1, cqs := s.cqs[id := s.cqs[id].(prps := Some(s.next))]), CqItself(id));
  }

  lemma {:induction false} AddNodeAtMost(s: State, owner: map<nat, Owner>, r: Request) returns (owner': map<nat, Owner>)
    requires AtMost(s, owner) && r.sqid in s.sqs
    requires r.sqid == 0 && r.op == CreateSq ==> r.target in s.sqs
    requires r.sqid == 0 && r.op == CreateCq ==> r.target in s.cqs
    ensures AtMost(AddNode(s, r), owner')
  {
    hide AtMost;
    var target := TargetOf(r);
    if !NeedsPrps(r) {
      owner' := WithNodeAtMost(s, owner, r.sqid, Node(r.cid, r.op, target, None), AddNode(s, r));
    } else if target == 0 {
      owner' := WithNodeAtMost(s, owner, r.sqid, Node(r.cid, r.op, target, Some(s.next)), AddNode(s, r));
    } else if r.op == CreateSq {
      owner' := GivenToSq(s, owner, target);
      var u := s.(next := s.next + 1, sqs := s.sqs[target := s.sqs[target].(prps := Some(s.next))]);
      owner' := WithNodeAtMost(u, owner', r.sqid, Node(r.cid, r.op, target, None), AddNode(s, r));
    } else {
      owner' := GivenToCq(s, owner, target);
      var u := s.(next := s.next + 1, cqs := s.cqs[target := s.cqs[target].(prps := Some(s.next))]);
      owner' := WithNodeAtMost(u, owner', r.sqid, Node(r.cid, r.op, target, None), AddNode(s, r));
    }
  }

  lemma {:induction false} MarkedAtMost(s: State, owner: map<nat, Owner>, r: Request) returns (owner': map<nat, Owner>)
    requires AtMost(s, owner)
    ensures AtMost(MarkCreated(s, r), owner')
  {
    hide Prps, Distinct;
    owner' := Granted(s, owner, MarkCreated(s, r), NodeOn(0));
  }

  lemma {:induction false} SubmitAtMost(s: State, owner: map<nat, Owner>, r: Request) returns (owner': map<nat, Owner>)
    requires AtMost(s, owner)
    ensures AtMost(Submit(s, r).0, owner')
  {
    hide AtMost, AddNode, MarkCreated;
    owner' := owner;
    if r.sqid in s.sqs && !(r.sqid == 0 && CreateRefusal(s, r) != 0) && r.prepared == 0 {
      owner' := AddNodeAtMost(s, owner, r);
      owner' := MarkedAtMost(AddNode(s, r), owner', r);
    }
  }

  // ----- completions

  lemma {:induction false} DropAtMost(s: State, owner: map<nat, Owner>, id: nat, k: nat, release: bool) returns (owner': map<nat, Owner>)
    requires AtMost(s, owner) && id in s.sqs && k < |s.sqs[id].nodes|
    ensures AtMost(DropNode(s.(released := s.released + if release then Held(s.sqs[id].nodes[k].prps) else []), id, k), owner')
  {
    hide Prps, Distinct;
    var nodes := s.sqs[id].nodes;
    var gone := if release then Held(nodes[k].prps) else [];
    var t := DropNode(s.(released := s.released + gone), id, k);
    DropPrps(nodes, k);
    PrpsMember(nodes, k);
    DistinctHeld(nodes[k].prps);
    forall p | p in gone ensures p in owner && owner[p] == NodeOn(id) {
      assert Owns(s, NodeOn(id), p);
    }
    forall o: Owner, p: nat | Owns(t, o, p) ensures Owns(s, o, p) && p !in gone {
      assert Owns(s, o, p);
    }
    owner' := Released(s, owner, t, gone);
  }

  lemma {:induction false} DistinctHeld(p: Option<nat>)
    ensures Distinct(Held(p)) && Distinct<nat>([])
  {
  }

  lemma {:induction false} CompleteAtMost(s: State, owner: map<nat, Owner>, sqid: nat, cid: nat, status: nat) returns (owner': map<nat, Owner>)
    requires AtMost(s, owner)
    ensures AtMost(Complete(s, sqid, cid, status).0, owner')
  {
    hide AtMost, ReleaseSq, ReleaseCq, DropNode, Held;
    owner' := owner;
    if sqid in s.sqs {
      var nodes := s.sqs[sqid].nodes;
      var k := Find(nodes, cid);
      if k < |nodes| {
        var n, t := nodes[k], s;
        var release := !(sqid == 0 && n.op != Other);
        if !release && FreesQueue(n.op, status) && n.target != 0 {
          OthersStay(s, n.target);
          if n.op == CreateSq || n.op == DeleteSq {
            if n.target in s.sqs {
              owner' := ReleaseSqAtMost(s, owner, n.target);
              t := ReleaseSq(s, n.target);
            }
          } else if n.target in s.cqs {
            owner' := ReleaseCqAtMost(s, owner, n.target);
            t := ReleaseCq(s, n.target);
          }
        }
        assert t.(released := t.released + []) == t;
        owner' := DropAtMost(t, owner', sqid, k, release);
      }
    }
  }

  // ----- runs

  lemma {:induction false} StepAtMost(s: State, owner: map<nat, Owner>, step: Step) returns (owner': map<nat, Owner>)
    requires AtMost(s, owner)
    ensures AtMost(Next(s, step), owner')
  {
    hide AtMost;
    match step
    case PrepSq(p, h) =>
      var other: map<nat, Owner>;
      owner', other := PrepareAtMost(s, owner, p, h);
    case PrepCq(p, h) =>
      var other: map<nat, Owner>;
      other, owner' := PrepareAtMost(s, owner, p, h);
    case SubmitCmd(r) => owner' := SubmitAtMost(s, owner, r);
    case Completion(sqid, cid, status) => owner' := CompleteAtMost(s, owner, sqid, cid, status);
    case DropAll(save) =>
      owner' := SweepSqsAtMost(s, owner, 0, save);
      owner' := SweepCqsAtMost(SweepSqs(s, 0, save), owner', 0, save);
  }

  lemma {:induction false} AfterAtMost(s: State, owner: map<nat, Owner>, steps: seq<Step>) returns (owner': map<nat, Owner>)
    requires AtMost(s, owner)
    ensures AtMost(After(s, steps), owner')
    decreases |steps|
  {
    hide AtMost, Next;
    owner' := owner;
    if steps != [] {
      owner' := StepAtMost(s, owner, steps[0]);
      owner' := AfterAtMost(Next(s, steps[0]), owner', steps[1..]);
    }
  }

  /**
   After any steps from an empty device, clean creates or not: a page set has at most one owner, down
   to the node; it has been released at most once; and one that was released has no owner.
   */
  lemma {:induction false} NeverSharedNorReleasedTwice(steps: seq<Step>, p: nat)
    ensures var s := After(State(map[], map[], 0, []), steps);
            && Distinct(s.released)
            && (forall o, o' :: Owns(s, o, p) && Owns(s, o', p) ==> o == o')
            && (p in s.released ==> forall o :: !Owns(s, o, p))
            && (forall q, j, k :: q in s.sqs && 0 <= j < k < |s.sqs[q].nodes| ==>
                  s.sqs[q].nodes[j].prps == Some(p) ==> s.sqs[q].nodes[k].prps != Some(p))
  {
    var s := After(State(map[], map[], 0, []), steps);
    var owner := AfterAtMost(State(map[], map[], 0, []), map[], steps);
    forall q, j, k | q in s.sqs && 0 <= j < k < |s.sqs[q].nodes|
      ensures s.sqs[q].nodes[j].prps == Some(p) ==> s.sqs[q].nodes[k].prps != Some(p)
    {
      HeldOnce(s.sqs[q].nodes, j, k, p);
    }
  }
}
