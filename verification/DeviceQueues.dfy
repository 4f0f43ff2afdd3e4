/**
 What prepares and submits answer and which queues that leaves in the tables, in every run of the
 driver: queues have a permitted size, a queue is created once while it lasts, and an accepted command
 changes nothing but its own queue's list, its page set's owner and its target.
 */
module DeviceQueues {
  import opened Wrappers
  import opened Linux
  import opened Sequences
  import opened Device
  import opened DeviceOwnership

  // ----- preparing

  /** A prepare is turned down, with the first of these errors that applies, or adds exactly the queue asked for. */
  lemma {:induction false} PrepareAnswers(s: State, p: Prep, h: Host)
    ensures var (t, ret) := PrepareSq(s, p, h);
            && (p.elements == 0 || p.elements > h.depth ==> ret == EINVAL)
            && (1 <= p.elements <= h.depth && p.id in s.sqs ==> ret == EEXIST)
            && (1 <= p.elements <= h.depth && p.id !in s.sqs && h.contigOnly && !p.contig ==> ret == EINVAL)
            && (1 <= p.elements <= h.depth && p.id !in s.sqs && (p.contig || !h.contigOnly) ==> ret == if h.alloc then 0 else ENOMEM)
            && (ret != 0 ==> t == s)
            && (ret == 0 ==> t == s.(sqs := s.sqs[p.id := Sq(p.elements, p.contig, false, None, [])]))
    ensures var (t, ret) := PrepareCq(s, p, h);
            && (p.elements == 0 || p.elements > h.depth ==> ret == EINVAL)
            && (1 <= p.elements <= h.depth && p.id in s.cqs ==> ret == EEXIST)
            && (1 <= p.elements <= h.depth && p.id !in s.cqs && h.contigOnly && !p.contig ==> ret == EINVAL)
            && (1 <= p.elements <= h.depth && p.id !in s.cqs && (p.contig || !h.contigOnly) ==>
                  ret == if !h.alloc then ENOMEM else if h.bound < 0 then h.bound else 0)
            && (ret != 0 ==> t == s)
            && (ret == 0 ==> t == s.(cqs := s.cqs[p.id := Cq(p.elements, p.contig, false, None)]))
  {
    UnboundIsUndone(s, p);
  }

  /** Every queue has a size from 1 to `depth`, and is contiguous if queues must be. */
  ghost predicate Permitted(s: State, depth: nat, contigOnly: bool) {
    && (forall q :: q in s.sqs ==> 1 <= s.sqs[q].elements <= depth && (contigOnly ==> s.sqs[q].contig))
    && (forall q :: q in s.cqs ==> 1 <= s.cqs[q].elements <= depth && (contigOnly ==> s.cqs[q].contig))
  }

  /** The device's own limits, the same for every prepare. */
  ghost predicate SameLimits(step: Step, depth: nat, contigOnly: bool) {
    (step.PrepSq? || step.PrepCq?) ==> step.h.depth == depth && step.h.contigOnly == contigOnly
  }

  /** `t` has no queue that `s` has not, and the queues it has are as they were but for commands, pages and being created. */
  ghost predicate SameQueues(s: State, t: State) {
    && (forall q :: q in t.sqs ==> q in s.sqs && t.sqs[q].elements == s.sqs[q].elements && t.sqs[q].contig == s.sqs[q].contig
                                   && (s.sqs[q].created ==> t.sqs[q].created))
    && (forall q :: q in t.cqs ==> q in s.cqs && t.cqs[q].elements == s.cqs[q].elements && t.cqs[q].contig == s.cqs[q].contig
                                   && (s.cqs[q].created ==> t.cqs[q].created))
  }

  lemma {:induction false} SweepKeepsQueues(s: State, id: nat, save: bool)
    requires id <= U16
    ensures SameQueues(s, SweepSqs(s, id, save))
    decreases U16 - id
  {
    hide Prps;
    if id < U16 {
      SweepKeepsQueues(SweepSq(s, id, save), id + 1, save);
    }
  }

  lemma {:induction false} SweepKeepsCqs(s: State, id: nat, save: bool)
    requires id <= U16
    ensures SameQueues(s, SweepCqs(s, id, save))
    decreases U16 - id
  {
    if id < U16 {
      SweepKeepsCqs(SweepCq(s, id, save), id + 1, save);
    }
  }

  /** Steps other than prepares bring no queue in and change no queue's settings. */
  lemma {:induction false} StepKeepsQueues(s: State, step: Step)
    requires !step.PrepSq? && !step.PrepCq?
    ensures SameQueues(s, Next(s, step))
  {
    hide SameQueues, Submit, Complete, SweepSqs, SweepCqs;
    match step
    case SubmitCmd(r) => SubmitKeepsQueues(s, r);
    case Completion(sqid, cid, status) => CompletionKeepsQueues(s, sqid, cid, status);
    case DropAll(save) =>
      SweepKeepsQueues(s, 0, save);
      SweepKeepsCqs(SweepSqs(s, 0, save), 0, save);
      QueuesKeptTwice(s, SweepSqs(s, 0, save), DeleteAll(s, save));
  }

  lemma {:induction false} QueuesKeptTwice(s: State, t: State, u: State)
    requires SameQueues(s, t) && SameQueues(t, u)
    ensures SameQueues(s, u)
  {
  }

  lemma {:induction false} SubmitKeepsQueues(s: State, r: Request)
    ensures SameQueues(s, Submit(s, r).0)
  {
    hide Submit;
    if Submit(s, r).1 == 0 {
      SubmitHandsOver(s, r);
    } else {
      SubmitRefusals(s, r);
    }
  }

  lemma {:induction false} CompletionKeepsQueues(s: State, sqid: nat, cid: nat, status: nat)
    ensures SameQueues(s, Complete(s, sqid, cid, status).0)
  {
    hide Complete;
    if sqid in s.sqs && Find(s.sqs[sqid].nodes, cid) < |s.sqs[sqid].nodes| {
      CompletionTouchesOnlyItsTarget(s, sqid, cid, status);
    } else {
      UnknownCompletion(s, sqid, cid, status);
    }
  }

  lemma {:induction false} StepPermitted(s: State, step: Step, depth: nat, contigOnly: bool)
    requires Permitted(s, depth, contigOnly) && SameLimits(step, depth, contigOnly)
    ensures Permitted(Next(s, step), depth, contigOnly)
  {
    match step
    case PrepSq(p, h) => PrepareAnswers(s, p, h);
    case PrepCq(p, h) => PrepareAnswers(s, p, h);
    case _ =>
      hide Next;
      StepKeepsQueues(s, step);
  }

  /** After any steps on an empty device no queue has an impossible size or is discontiguous where that is not allowed. */
  lemma {:induction false} QueuesArePermitted(s: State, steps: seq<Step>, depth: nat, contigOnly: bool)
    requires Permitted(s, depth, contigOnly) && forall i :: 0 <= i < |steps| ==> SameLimits(steps[i], depth, contigOnly)
    ensures Permitted(After(s, steps), depth, contigOnly)
    ensures Permitted(State(map[], map[], 0, []), depth, contigOnly)
    decreases |steps|
  {
    hide Next, SameLimits;
    if steps != [] {
      assert SameLimits(steps[0], depth, contigOnly);
      StepPermitted(s, steps[0], depth, contigOnly);
      QueuesArePermitted(Next(s, steps[0]), steps[1..], depth, contigOnly);
    }
  }

  // ----- submitting

  /** What a submit answers: on an unknown queue, for a create that does not fit its target, and otherwise how preparing it ended. */
  lemma {:induction false} SubmitRefusals(s: State, r: Request)
    ensures r.sqid !in s.sqs ==> Submit(s, r) == (s, EBADSLT)
    ensures Submit(s, r).1 != 0 ==> Submit(s, r).0 == s
    ensures r.sqid in s.sqs && (r.sqid != 0 || (r.op != CreateSq && r.op != CreateCq)) ==> Submit(s, r).1 == r.prepared
    ensures r.sqid == 0 && 0 in s.sqs && r.op == CreateSq ==>
              && (r.target !in s.sqs ==> Submit(s, r).1 == EINVAL)
              && (r.target in s.sqs ==>
                    var q := s.sqs[r.target];
                    && (r.contig != q.contig || (!q.contig && !r.data) ==> Submit(s, r).1 == EINVAL)
                    && (r.contig == q.contig && (q.contig || r.data) && q.created ==> Submit(s, r).1 == EPERM)
                    && (r.contig == q.contig && (q.contig || r.data) && !q.created ==> Submit(s, r).1 == r.prepared))
    ensures r.sqid == 0 && 0 in s.sqs && r.op == CreateCq ==>
              && (r.target !in s.cqs ==> Submit(s, r).1 == EBADSLT)
              && (r.target in s.cqs ==>
                    var q := s.cqs[r.target];
                    && (r.contig != q.contig || (!q.contig && !r.data) || q.created || !r.irqOk ==> Submit(s, r).1 == EINVAL)
                    && (r.contig == q.contig && (q.contig || r.data) && !q.created && r.irqOk ==> Submit(s, r).1 == r.prepared))
  {
    hide AddNode, MarkCreated;
  }

  /** The page set an accepted command brings: it has one if it carries data and is no delete. */
  ghost function NewSet(s: State, r: Request): Option<nat> {
    if r.data && !(r.sqid == 0 && (r.op == DeleteSq || r.op == DeleteCq)) then Some(s.next) else None
  }

  /** The queue a command on the admin queue names; 0 for others. */
  ghost function Named(r: Request): nat {
    if r.sqid == 0 && r.op != Other then r.target else 0
  }

  /**
   What an accepted command does: its node goes to the end of its queue's list; its page set, if any,
   goes to the queue it creates, or to the node if it names none; a created queue is marked; nothing
   else changes.
   */
  lemma {:induction false} SubmitHandsOver(s: State, r: Request)
    requires Submit(s, r).1 == 0
    ensures var t, pages := Submit(s, r).0, NewSet(s, r);
            && t.next == s.next + (if pages.Some? then 1 else 0) && t.released == s.released
            && t.sqs.Keys == s.sqs.Keys && t.cqs.Keys == s.cqs.Keys && r.sqid in s.sqs
            && (forall q :: q in s.sqs ==> t.sqs[q] == SqAfter(s, r, q))
            && (forall q :: q in s.cqs ==> t.cqs[q] == CqAfter(s, r, q))
  {
    hide CreateRefusal, AddNode, MarkCreated;
    SubmitTargets(s, r);
    NodeAdded(s, r);
    Marked(s, AddNode(s, r), r);
  }

  /** A submission queue after an accepted command. */
  ghost function SqAfter(s: State, r: Request, q: nat): Sq
    requires q in s.sqs
  {
    var pages, named := NewSet(s, r), Named(r);
    var created := r.sqid == 0 && r.op == CreateSq && q == named;
    s.sqs[q].(nodes := s.sqs[q].nodes + (if q == r.sqid then [Node(r.cid, r.op, named, if named == 0 then pages else None)] else []),
              prps := if created && named != 0 && pages.Some? then pages else s.sqs[q].prps,
              created := s.sqs[q].created || created)
  }

  /** A completion queue after an accepted command. */
  ghost function CqAfter(s: State, r: Request, q: nat): Cq
    requires q in s.cqs
  {
    var pages, named := NewSet(s, r), Named(r);
    var created := r.sqid == 0 && r.op == CreateCq && q == named;
    s.cqs[q].(prps := if created && named != 0 && pages.Some? then pages else s.cqs[q].prps,
              created := s.cqs[q].created || created)
  }

  lemma {:induction false} NodeAdded(s: State, r: Request)
    requires r.sqid in s.sqs
    requires r.sqid == 0 && r.op == CreateSq ==> r.target in s.sqs
    requires r.sqid == 0 && r.op == CreateCq ==> r.target in s.cqs
    ensures var t, pages := AddNode(s, r), NewSet(s, r);
            && t.next == s.next + (if pages.Some? then 1 else 0) && t.released == s.released
            && t.sqs.Keys == s.sqs.Keys && t.cqs.Keys == s.cqs.Keys
            && (forall q :: q in s.sqs ==> t.sqs[q] == SqAfter(s, r, q).(created := s.sqs[q].created))
            && (forall q :: q in s.cqs ==> t.cqs[q] == CqAfter(s, r, q).(created := s.cqs[q].created))
  {
  }

  lemma {:induction false} Marked(s: State, a: State, r: Request)
    requires a.sqs.Keys == s.sqs.Keys && a.cqs.Keys == s.cqs.Keys
    requires forall q :: q in s.sqs ==> a.sqs[q] == SqAfter(s, r, q).(created := s.sqs[q].created)
    requires forall q :: q in s.cqs ==> a.cqs[q] == CqAfter(s, r, q).(created := s.cqs[q].created)
    ensures var t := MarkCreated(a, r);
            && t.next == a.next && t.released == a.released && t.sqs.Keys == s.sqs.Keys && t.cqs.Keys == s.cqs.Keys
            && (forall q :: q in s.sqs ==> t.sqs[q] == SqAfter(s, r, q))
            && (forall q :: q in s.cqs ==> t.cqs[q] == CqAfter(s, r, q))
  {
  }

  lemma {:induction false} SubmitTargets(s: State, r: Request)
    requires Submit(s, r).1 == 0
    ensures r.sqid in s.sqs && r.prepared == 0
    ensures r.sqid == 0 ==> CreateRefusal(s, r) == 0
    ensures r.sqid == 0 && r.op == CreateSq ==> r.target in s.sqs
    ensures r.sqid == 0 && r.op == CreateCq ==> r.target in s.cqs
  {
    hide AddNode, MarkCreated;
  }

  // ----- creating

  /** Queue `q` has been in the table after each of the steps. */
  ghost predicate Lasts(s: State, steps: seq<Step>, sq: bool, q: nat)
    decreases |steps|
  {
    (if sq then q in s.sqs else q in s.cqs) && (steps == [] || Lasts(Next(s, steps[0]), steps[1..], sq, q))
  }

  lemma {:induction false} CreatedStays(s: State, step: Step, q: nat)
    ensures q in s.sqs && s.sqs[q].created && q in Next(s, step).sqs ==> Next(s, step).sqs[q].created
    ensures q in s.cqs && s.cqs[q].created && q in Next(s, step).cqs ==> Next(s, step).cqs[q].created
  {
    match step
    case PrepSq(p, h) => PrepareAnswers(s, p, h);
    case PrepCq(p, h) => PrepareAnswers(s, p, h);
    case _ =>
      hide Next;
      StepKeepsQueues(s, step);
  }

  lemma {:induction false} CreatedLasts(s: State, steps: seq<Step>, sq: bool, q: nat)
    requires Lasts(s, steps, sq, q) && if sq then s.sqs[q].created else s.cqs[q].created
    ensures if sq then q in After(s, steps).sqs && After(s, steps).sqs[q].created
            else q in After(s, steps).cqs && After(s, steps).cqs[q].created
    decreases |steps|
  {
    hide Next;
    if steps != [] {
      CreatedStays(s, steps[0], q);
      CreatedLasts(Next(s, steps[0]), steps[1..], sq, q);
    }
  }

  /** Once a create of a queue has been accepted, every other one is refused for as long as the queue lasts. */
  lemma {:induction false} SecondCreateRefused(s: State, r: Request, steps: seq<Step>, again: Request)
    requires Submit(s, r).1 == 0 && r.sqid == 0 == again.sqid && (r.op == CreateSq || r.op == CreateCq)
    requires again.op == r.op && again.target == r.target
    requires Lasts(Submit(s, r).0, steps, r.op == CreateSq, r.target)
    ensures var t := After(Submit(s, r).0, steps); Submit(t, again).1 != 0 && Submit(t, again).0 == t
  {
    hide Submit, Next;
    SubmitHandsOver(s, r);
    SubmitTargets(s, r);
    CreatedLasts(Submit(s, r).0, steps, r.op == CreateSq, r.target);
    SubmitRefusals(After(Submit(s, r).0, steps), again);
  }
}
