/**
 Interrupt set-up in modules/dnvme/irq.c: the list of irq nodes and the list of work nodes that must
 name the same interrupts, the handlers requested from the kernel, and their rollback on failure.
 */
module IrqSet {
  import opened Wrappers
  import opened Sequences

  const MSI_VEC_MAX := 32
  const MSIX_VEC_MAX := 2048

  datatype Kind = MsiSingle | MsiMulti | MsiX | Pin | NoIrq | Unknown

  /** An irq node: its number, its vector and the completion queues bound to it. */
  datatype Irq = Irq(id: nat, vec: nat, icqs: seq<nat>)

  /** A work node. */
  datatype Work = Work(id: nat, vec: nat)

  /** Which delivery the PCI function is switched to. */
  datatype PciMode = Off | Msi | Msix | IntPin

  /** What the device offers, as the parameter check reads it. */
  datatype Caps = Caps(enabled: bool, msi: bool, msiLimit: Option<nat>, msixLimit: Option<nat>)

  /** What the kernel answers: each request and each allocation may fail on its own. */
  datatype Kernel = Kernel(
    workqueue: bool,
    enable: bool,
    vector: nat -> nat,
    request: nat -> bool,
    irqNode: nat -> bool,
    workNode: nat -> bool,
    icqNode: bool,
    pbaClear: bool)

  function ModeOf(kind: Kind): PciMode {
    match kind
    case MsiSingle => Msi
    case MsiMulti => Msi
    case MsiX => Msix
    case Pin => IntPin
    case NoIrq => Off
    case Unknown => Off
  }

  /** The parameters that are let through. */
  predicate Accepts(caps: Caps, kind: Kind, count: nat) {
    && !caps.enabled
    && match kind
       case MsiSingle => count == 1 && caps.msi
       case MsiMulti => 0 < count <= MSI_VEC_MAX && caps.msi && caps.msiLimit.Some? && count <= caps.msiLimit.value
       case MsiX => 0 < count <= MSIX_VEC_MAX && caps.msixLimit.Some? && count <= caps.msixLimit.value
       case Pin => true
       case NoIrq => true
       case Unknown => false
  }

  function PairOf(irq: Irq): Work {
    Work(irq.id, irq.vec)
  }

  function Pairs(irqs: seq<Irq>): (ws: seq<Work>)
    ensures |ws| == |irqs| && forall i :: 0 <= i < |irqs| ==> ws[i] == PairOf(irqs[i])
  {
    seq(|irqs|, i requires 0 <= i < |irqs| => PairOf(irqs[i]))
  }

  function Vectors(irqs: seq<Irq>): (vs: seq<nat>)
    ensures |vs| == |irqs| && forall i :: 0 <= i < |irqs| ==> vs[i] == irqs[i].vec
  {
    seq(|irqs|, i requires 0 <= i < |irqs| => irqs[i].vec)
  }

  ghost predicate Unique(ws: seq<Work>) {
    forall i, j :: 0 <= i < j < |ws| ==> ws[i].id != ws[j].id && ws[i].vec != ws[j].vec
  }

  /** The irq nodes of a full set-up: numbered from 0, the admin completion queue bound to the first. */
  function Made(vectors: seq<nat>): (irqs: seq<Irq>)
    ensures |irqs| == |vectors|
    ensures forall i :: 0 <= i < |vectors| ==> irqs[i] == Irq(i, vectors[i], if i == 0 then [0] else [])
  {
    seq(|vectors|, i requires 0 <= i < |vectors| => Irq(i, vectors[i], if i == 0 then [0] else []))
  }

  /** No node has the number or the vector. */
  ghost predicate Unused(ws: seq<Work>, id: nat, vec: nat) {
    forall i :: 0 <= i < |ws| ==> ws[i].id != id && ws[i].vec != vec
  }

  method FindById(nodes: seq<Work>, id: nat) returns (at: Option<nat>)
    ensures at.None? <==> forall i :: 0 <= i < |nodes| ==> nodes[i].id != id
    ensures at.Some? ==> at.value < |nodes| && nodes[at.value].id == id
  {
    for i := 0 to |nodes|
      invariant forall j :: 0 <= j < i ==> nodes[j].id != id
    {
      if nodes[i].id == id {
        return Some(i);
      }
    }
    at := None;
  }

  method FindByVec(nodes: seq<Work>, vec: nat) returns (at: Option<nat>)
    ensures at.None? <==> forall i :: 0 <= i < |nodes| ==> nodes[i].vec != vec
    ensures at.Some? ==> at.value < |nodes| && nodes[at.value].vec == vec
  {
    for i := 0 to |nodes|
      invariant forall j :: 0 <= j < i ==> nodes[j].vec != vec
    {
      if nodes[i].vec == vec {
        return Some(i);
      }
    }
    at := None;
  }

  lemma {:induction false} UniqueDrop(ws: seq<Work>, k: nat)
    requires Unique(ws) && k < |ws|
    ensures Unique(Without(ws, k))
  {
  }

  lemma {:induction false} PairsDrop(irqs: seq<Irq>, k: nat)
    requires k < |irqs|
    ensures Pairs(Without(irqs, k)) == Without(Pairs(irqs), k)
  {
  }

  lemma {:induction false} PairsAdd(irqs: seq<Irq>, irq: Irq)
    ensures Pairs(irqs + [irq]) == Pairs(irqs) + [PairOf(irq)]
  {
  }

  lemma {:induction false} UniqueAdd(ws: seq<Work>, w: Work)
    requires Unique(ws)
    ensures Unique(ws + [w]) <==> Unused(ws, w.id, w.vec)
  {
    if !Unused(ws, w.id, w.vec) {
      var i :| 0 <= i < |ws| && (ws[i].id == w.id || ws[i].vec == w.vec);
      assert (ws + [w])[i] == ws[i] && (ws + [w])[|ws|] == w;
    }
  }

  /** One more vector fits the nodes made so far exactly when it is a new one. */
  lemma {:induction false} MadeAdd(vectors: seq<nat>, j: nat)
    requires j < |vectors|
    ensures Made(vectors[..j + 1]) == Made(vectors[..j]) + [Irq(j, vectors[j], if j == 0 then [0] else [])]
    ensures Unused(Pairs(Made(vectors[..j])), j, vectors[j]) <==> vectors[j] !in vectors[..j]
  {
    var made := Pairs(Made(vectors[..j]));
    assert forall i :: 0 <= i < j ==> made[i] == Work(i, vectors[i]);
    if vectors[j] in vectors[..j] {
      var i :| 0 <= i < j && vectors[i] == vectors[j];
      assert made[i].vec == vectors[j];
    }
  }

  /** An interrupt in the list has one place there, and removing that place removes it. */
  lemma {:induction false} PlaceOf(irqs: seq<Irq>, id: nat, vec: nat) returns (k: nat)
    requires Unique(Pairs(irqs)) && Work(id, vec) in Pairs(irqs)
    ensures k < |irqs| && irqs[k].id == id && irqs[k].vec == vec && !Unused(Pairs(irqs), id, vec)
    ensures forall i :: 0 <= i < |irqs| && Pairs(irqs)[i].id == id ==> i == k
    ensures Unique(Without(Pairs(irqs), k)) && Without(Pairs(irqs), k) == Pairs(Without(irqs, k)) && Work(id, vec) !in Without(Pairs(irqs), k)
  {
    k :| 0 <= k < |irqs| && Pairs(irqs)[k] == Work(id, vec);
    UniqueDrop(Pairs(irqs), k);
    PairsDrop(irqs, k);
  }

  /** A new interrupt at the end of the list, and its removal. */
  lemma {:induction false} Grown(irqs: seq<Irq>, id: nat, vec: nat)
    requires Unique(Pairs(irqs)) && Unused(Pairs(irqs), id, vec)
    ensures var more := irqs + [Irq(id, vec, [])];
            && Pairs(more) == Pairs(irqs) + [Work(id, vec)] && Unique(Pairs(more))
            && Without(more, |irqs|) == irqs && Without(Pairs(more), |irqs|) == Pairs(irqs)
            && forall i :: 0 <= i < |more| && Pairs(more)[i].id == id ==> i == |irqs|
  {
    PairsAdd(irqs, Irq(id, vec, []));
    UniqueAdd(Pairs(irqs), Work(id, vec));
  }

  lemma {:induction false} Rebound(irqs: seq<Irq>, k: nat, icqs: seq<nat>)
    requires k < |irqs|
    ensures Pairs(irqs[k := irqs[k].(icqs := icqs)]) == Pairs(irqs)
    ensures Vectors(irqs[k := irqs[k].(icqs := icqs)]) == Vectors(irqs)
  {
  }

  // ----- what the kernel must grant

  ghost predicate RequestsGranted(kernel: Kernel, n: nat) {
    forall j: nat :: j < n ==> kernel.request(j)
  }

  ghost predicate NodesGranted(kernel: Kernel, n: nat) {
    (forall j: nat :: j < n ==> kernel.irqNode(j) && kernel.workNode(j)) && (n > 0 ==> kernel.icqNode)
  }

  lemma {:induction false} NotGranted(kernel: Kernel, j: nat, n: nat)
    requires j < n && !(kernel.irqNode(j) && kernel.workNode(j) && (j == 0 ==> kernel.icqNode))
    ensures !NodesGranted(kernel, n)
  {
  }

  lemma {:induction false} DistinctAdd(s: seq<nat>, j: nat)
    requires j < |s| && Distinct(s[..j])
    ensures Distinct(s[..j + 1]) <==> s[j] !in s[..j]
    ensures s[j] in s[..j] ==> !Distinct(s)
  {
    if s[j] in s[..j] {
      var i :| 0 <= i < j && s[i] == s[j];
      assert s[..j + 1][i] == s[..j + 1][j];
    }
  }

  lemma {:induction false} DistinctOneMore(s: seq<nat>, x: nat)
    requires Distinct(s)
    ensures Distinct(s + [x]) <==> x !in s
  {
    if x in s {
      var i :| 0 <= i < |s| && s[i] == x;
      assert (s + [x])[i] == (s + [x])[|s|];
    }
  }

  /** What can be asked of the set. */
  datatype Step =
    | SetTo(caps: Caps, kind: Kind, n: nat, kernel: Kernel)
    | Clean
    | Bind(cq: nat, irqNo: nat, alloc: bool)
    | Unbind(cq: nat, irqNo: nat)

  lemma {:induction false} Nothing()
    ensures Pairs([]) == [] && Unique([]) && Made([]) == [] && Vectors([]) == []
  {
  }

  /** `n` consecutive vectors. */
  function Block(first: nat, n: nat): (vs: seq<nat>)
    ensures |vs| == n && forall i :: 0 <= i < n ==> vs[i] == first + i
  {
    if n == 0 then [] else Block(first, n - 1) + [first + n - 1]
  }

  /** The vectors a scheme gets. */
  function Assigned(kernel: Kernel, kind: Kind, n: nat): (vs: seq<nat>)
    ensures |vs| == if kind == MsiMulti || kind == MsiX then n else if kind == NoIrq || kind == Unknown then 0 else 1
  {
    match kind
    case MsiMulti => Block(kernel.vector(0), n)
    case MsiX => seq<nat>(n, i requires i >= 0 => kernel.vector(i))
    case MsiSingle => [kernel.vector(0)]
    case Pin => [kernel.vector(0)]
    case NoIrq => []
    case Unknown => []
  }

  /** What the kernel must answer for a scheme to be set up. */
  ghost predicate Grants(kernel: Kernel, kind: Kind, n: nat) {
    var m := |Assigned(kernel, kind, n)|;
    && RequestsGranted(kernel, m) && NodesGranted(kernel, m)
    && (kind == MsiSingle || kind == MsiMulti || kind == MsiX ==> kernel.enable)
    && (kind == MsiX ==> Distinct(Assigned(kernel, kind, n)) && kernel.pbaClear)
  }

  lemma {:induction false} NothingToGrant(kernel: Kernel, n: nat)
    ensures Grants(kernel, NoIrq, n) && Assigned(kernel, NoIrq, n) == []
  {
  }

  lemma {:induction false} OneGranted(kernel: Kernel)
    ensures RequestsGranted(kernel, 1) == kernel.request(0)
    ensures NodesGranted(kernel, 1) == (kernel.irqNode(0) && kernel.workNode(0) && kernel.icqNode)
    ensures Made([kernel.vector(0)]) == [Irq(0, kernel.vector(0), [0])]
    ensures Unused([], 0, kernel.vector(0))
  {
  }

  lemma {:induction false} OneVector(kernel: Kernel, n: nat)
    ensures Assigned(kernel, Pin, n) == Assigned(kernel, Pin, 1) && Assigned(kernel, MsiSingle, n) == Assigned(kernel, MsiSingle, 1)
    ensures Grants(kernel, Pin, n) == Grants(kernel, Pin, 1) && Grants(kernel, MsiSingle, n) == Grants(kernel, MsiSingle, 1)
  {
    hide RequestsGranted, NodesGranted;
  }

  lemma {:induction false} MadeIs(vectors: seq<nat>)
    ensures Vectors(Made(vectors)) == vectors
    ensures forall i :: 0 <= i < |vectors| ==> Made(vectors)[i].id == i && Distinct(Made(vectors)[i].icqs)
  {
  }

  lemma {:induction false} PrefixVectors(vectors: seq<nat>, i: nat)
    requires i < |vectors|
    ensures multiset(vectors[..i + 1]) == multiset(vectors[..i]) + multiset{vectors[i]}
  {
    assert vectors[..i + 1] == vectors[..i] + [vectors[i]];
  }

  class Set {
    var irqs: seq<Irq>
    var works: seq<Work>
    var kind: Kind
    var count: nat
    var workqueue: bool
    /** Handlers requested from the kernel and not freed, by vector. */
    var handlers: multiset<nat>
    var pci: PciMode

    /** Both lists name the same interrupts, numbers and vectors each once. */
    ghost predicate Paired()
      reads this
    {
      works == Pairs(irqs) && Unique(works)
    }

    /** What every run of set and clean keeps. */
    ghost predicate Inv()
      reads this
    {
      && Paired()
      && handlers == multiset(Vectors(irqs))
      && (kind == NoIrq || kind == Unknown ==> irqs == [])
      && (kind == Pin ==> |irqs| == 1)
      && (kind == MsiSingle || kind == MsiMulti || kind == MsiX ==> |irqs| == count)
      && (kind == MsiSingle ==> count == 1) && (kind == MsiMulti ==> 1 <= count <= 32) && (kind == MsiX ==> 1 <= count <= 2048)
      && (forall i :: 0 <= i < |irqs| ==> irqs[i].id == i && Distinct(irqs[i].icqs))
      && (irqs != [] ==> workqueue)
    }

    constructor ()
      ensures Inv() && kind == NoIrq && pci == Off && irqs == [] && !workqueue
    {
      irqs, works, kind, count, workqueue, handlers, pci := [], [], NoIrq, 0, false, multiset{}, Off;
    }

    method CreateIrqNode(vec: nat, id: nat, alloc: bool) returns (ok: bool)
      requires Paired()
      modifies this`irqs
      ensures ok <==> Work(id, vec) in works || (Unused(works, id, vec) && alloc)
      ensures irqs == if ok && Work(id, vec) !in works then old(irqs) + [Irq(id, vec, [])] else old(irqs)
    {
      var byId := FindById(Pairs(irqs), id);
      if byId.Some? {
        assert works[byId.value].id == id;
        return works[byId.value].vec == vec;
      }
      var byVec := FindByVec(Pairs(irqs), vec);
      if byVec.Some? || !alloc {
        return false;
      }
      irqs := irqs + [Irq(id, vec, [])];
      ok := true;
    }

    method CreateWorkNode(vec: nat, id: nat, alloc: bool) returns (ok: bool)
      requires Unique(works)
      modifies this`works
      ensures ok <==> Work(id, vec) in old(works) || (Unused(old(works), id, vec) && alloc)
      ensures works == if ok && Work(id, vec) !in old(works) then old(works) + [Work(id, vec)] else old(works)
    {
      var byId := FindById(works, id);
      if byId.Some? {
        return works[byId.value].vec == vec;
      }
      var byVec := FindByVec(works, vec);
      if byVec.Some? || !alloc {
        return false;
      }
      works := works + [Work(id, vec)];
      ok := true;
    }

    /** Binds a completion queue to the irq node at position `k`. */
    method CreateIcqNode(k: nat, cq: nat, alloc: bool) returns (ok: bool)
      requires k < |irqs|
      modifies this`irqs
      ensures ok <==> cq in old(irqs)[k].icqs || alloc
      ensures irqs == if ok && cq !in old(irqs)[k].icqs then old(irqs)[k := old(irqs)[k].(icqs := old(irqs)[k].icqs + [cq])] else old(irqs)
    {
      if cq in irqs[k].icqs {
        assert irqs[k := irqs[k]] == irqs;
        return true;
      }
      if !alloc {
        return false;
      }
      irqs := irqs[k := irqs[k].(icqs := irqs[k].icqs + [cq])];
      ok := true;
    }

    method DeleteWorkNode(id: nat)
      modifies this`works
      requires Unique(works)
      ensures Unique(works)
      ensures (forall k :: 0 <= k < |old(works)| ==> old(works)[k].id != id) ==> works == old(works)
      ensures forall k :: 0 <= k < |old(works)| && old(works)[k].id == id ==> works == Without(old(works), k)
    {
      var at := FindById(works, id);
      if at.Some? {
        UniqueDrop(works, at.value);
        works := Without(works, at.value);
      }
    }

    method DeleteIrqNode(id: nat)
      modifies this`irqs
      requires Unique(Pairs(irqs))
      ensures Unique(Pairs(irqs))
      ensures (forall k :: 0 <= k < |old(irqs)| ==> old(irqs)[k].id != id) ==> irqs == old(irqs)
      ensures forall k :: 0 <= k < |old(irqs)| && old(irqs)[k].id == id ==> irqs == Without(old(irqs), k)
    {
      var at := FindById(Pairs(irqs), id);
      if at.Some? {
        UniqueDrop(Pairs(irqs), at.value);
        PairsDrop(irqs, at.value);
        assert forall k :: 0 <= k < |irqs| && irqs[k].id == id ==> k == at.value by {
          assert forall k :: 0 <= k < |irqs| ==> Pairs(irqs)[k].id == irqs[k].id;
        }
        irqs := Without(irqs, at.value);
      }
    }

    /** Removes an interrupt from both lists. */
    method DestroyIrqWorkPair(id: nat)
      requires Paired()
      modifies this`irqs, this`works
      ensures Paired()
      ensures (forall k :: 0 <= k < |old(irqs)| ==> old(irqs)[k].id != id) ==> irqs == old(irqs)
      ensures forall k :: 0 <= k < |old(irqs)| && old(irqs)[k].id == id ==> irqs == Without(old(irqs), k)
    {
      DeleteWorkNode(id);
      DeleteIrqNode(id);
      PairedAfter(old(irqs), old(works), id);
    }

    lemma {:induction false} PairedAfter(irqs0: seq<Irq>, works0: seq<Work>, id: nat)
      requires works0 == Pairs(irqs0)
      requires (forall k :: 0 <= k < |irqs0| ==> irqs0[k].id != id) ==> irqs == irqs0
      requires (forall k :: 0 <= k < |works0| ==> works0[k].id != id) ==> works == works0
      requires forall k :: 0 <= k < |irqs0| && irqs0[k].id == id ==> irqs == Without(irqs0, k)
      requires forall k :: 0 <= k < |works0| && works0[k].id == id ==> works == Without(works0, k)
      ensures works == Pairs(irqs)
    {
      if k :| 0 <= k < |irqs0| && irqs0[k].id == id {
        assert works0[k].id == id;
        PairsDrop(irqs0, k);
      } else {
        assert forall k :: 0 <= k < |works0| ==> works0[k].id == irqs0[k].id;
      }
    }

    /**
     Adds an interrupt to both lists, with the admin completion queue if its number is 0. A failure
     part-way leaves both lists as they were; an interrupt already there may be removed instead.
     */
    method CreateIrqWorkPair(vec: nat, id: nat, irqNode: bool, workNode: bool, icqNode: bool) returns (ok: bool)
      requires Paired()
      modifies this`irqs, this`works
      ensures Paired()
      ensures Unused(old(works), id, vec) ==> (ok <==> irqNode && workNode && (id == 0 ==> icqNode))
      ensures Unused(old(works), id, vec) ==> irqs == if ok then old(irqs) + [Irq(id, vec, if id == 0 then [0] else [])] else old(irqs)
      ensures !Unused(old(works), id, vec) && Work(id, vec) !in old(works) ==> !ok && irqs == old(irqs)
      ensures Work(id, vec) in old(works) ==> if ok then works == old(works) else id == 0 && Work(id, vec) !in works
    {
      hide Pairs, Unique, Unused, Without;
      ghost var irqs0, works0 := irqs, works;
      ok := CreateIrqNode(vec, id, irqNode);
      if !ok {
        return;
      }
      ghost var present, k: nat := Work(id, vec) in works0, |irqs0|;
      if present {
        k := PlaceOf(irqs0, id, vec);
      } else {
        Grown(irqs0, id, vec);
      }
      assert irqs[k].id == id;
      ghost var irqs1 := irqs;
      ok := CreateWorkNode(vec, id, workNode);
      if ok && id == 0 {
        var at := FindById(Pairs(irqs), id);
        assert Pairs(irqs)[k].id == id;
        assert at == Some(k);
        ok := CreateIcqNode(at.value, 0, icqNode);
        if ok {
          Rebound(irqs1, k, irqs[k].icqs);
          assert [] + [0] == [0];
          assert !present ==> irqs == irqs0 + [Irq(id, vec, [0])];
        } else {
          DeleteWorkNode(id);
        }
      }
      if !ok {
        DeleteIrqNode(id);
      }
    }

    // ----- handlers and nodes for a block of vectors

    /** Requests handlers in order up to the first refusal. */
    method RequestVectors(vectors: seq<nat>, kernel: Kernel) returns (i: nat)
      modifies this`handlers
      ensures i <= |vectors| && handlers == old(handlers) + multiset(vectors[..i])
      ensures i == |vectors| <==> forall j: nat :: j < |vectors| ==> kernel.request(j)
    {
      i := 0;
      assert vectors[..0] == [];
      while i < |vectors|
        invariant i <= |vectors| && handlers == old(handlers) + multiset(vectors[..i])
        invariant forall j: nat :: j < i ==> kernel.request(j)
      {
        if !kernel.request(i) {
          return;
        }
        assert vectors[..i + 1] == vectors[..i] + [vectors[i]];
        handlers := handlers + multiset{vectors[i]};
        i := i + 1;
      }
    }

    method FreeVectors(vectors: seq<nat>, n: nat)
      requires n <= |vectors| && multiset(vectors[..n]) <= handlers
      modifies this`handlers
      ensures handlers == old(handlers) - multiset(vectors[..n])
    {
      var i: nat := n;
      while i > 0
        invariant i <= n && multiset(vectors[..i]) <= handlers
        invariant handlers == old(handlers) - multiset(vectors[..n]) + multiset(vectors[..i])
      {
        i := i - 1;
        PrefixVectors(vectors, i);
        handlers := handlers - multiset{vectors[i]};
      }
    }

    /** Creates the nodes in order up to the first failure. */
    method PairVectors(vectors: seq<nat>, kernel: Kernel) returns (j: nat)
      requires irqs == [] && works == []
      modifies this`irqs, this`works
      ensures Paired() && j <= |vectors| && irqs == Made(vectors[..j])
      ensures j == |vectors| <==> Distinct(vectors) && NodesGranted(kernel, |vectors|)
    {
      hide Pairs, Made, Unique, Unused;
      Nothing();
      j := 0;
      while j < |vectors|
        invariant Paired() && j <= |vectors| && irqs == Made(vectors[..j])
        invariant Distinct(vectors[..j]) && NodesGranted(kernel, j)
      {
        MadeAdd(vectors, j);
        DistinctAdd(vectors, j);
        var ok := CreateIrqWorkPair(vectors[j], j, kernel.irqNode(j), kernel.workNode(j), kernel.icqNode);
        if !ok {
          if vectors[j] !in vectors[..j] {
            NotGranted(kernel, j, |vectors|);
          }
          return;
        }
        j := j + 1;
      }
      assert vectors[..j] == vectors;
    }

    /** Destroys the nodes again, last one first. */
    method UnpairVectors(vectors: seq<nat>, n: nat)
      requires Paired() && n <= |vectors| && irqs == Made(vectors[..n])
      modifies this`irqs, this`works
      ensures Paired() && irqs == []
    {
      hide Pairs, Unique;
      var j: nat := n;
      while j > 0
        invariant Paired() && j <= n && irqs == Made(vectors[..j])
      {
        j := j - 1;
        MadeAdd(vectors, j);
        assert irqs[j].id == j;
        DestroyIrqWorkPair(j);
      }
    }

    /** Handlers and nodes for every vector, or nothing at all. */
    method BindVectors(vectors: seq<nat>, kernel: Kernel, clear: bool) returns (ok: bool)
      requires irqs == [] && works == []
      modifies this`irqs, this`works, this`handlers
      ensures Paired()
      ensures ok <==> Distinct(vectors) && RequestsGranted(kernel, |vectors|) && NodesGranted(kernel, |vectors|) && clear
      ensures ok ==> irqs == Made(vectors) && handlers == old(handlers) + multiset(vectors)
      ensures !ok ==> irqs == [] && handlers == old(handlers)
    {
      hide Pairs, Made, Unique, Distinct, NodesGranted;
      Nothing();
      var i := RequestVectors(vectors, kernel);
      assert vectors[..|vectors|] == vectors;
      ok := i == |vectors|;
      if ok {
        var j := PairVectors(vectors, kernel);
        ok := j == |vectors| && clear;
        if !ok {
          UnpairVectors(vectors, j);
        }
      }
      if !ok {
        FreeVectors(vectors, i);
      }
    }

    // ----- the four schemes

    /** One vector, with the kernel's answers number 0. */
    method BindSingle(kernel: Kernel) returns (ok: bool)
      requires irqs == [] && works == []
      modifies this`irqs, this`works, this`handlers
      ensures Paired()
      ensures ok <==> RequestsGranted(kernel, 1) && NodesGranted(kernel, 1)
      ensures ok ==> irqs == Made([kernel.vector(0)]) && handlers == old(handlers) + multiset{kernel.vector(0)}
      ensures !ok ==> irqs == [] && handlers == old(handlers)
    {
      hide Pairs, Unique, Unused, Made, RequestsGranted, NodesGranted;
      Nothing();
      OneGranted(kernel);
      var vec := kernel.vector(0);
      if !kernel.request(0) {
        return false;
      }
      handlers := handlers + multiset{vec};
      ok := CreateIrqWorkPair(vec, 0, kernel.irqNode(0), kernel.workNode(0), kernel.icqNode);
      if !ok {
        handlers := handlers - multiset{vec};
      }
    }

    method SetIntPin(kernel: Kernel) returns (ok: bool)
      requires irqs == [] && works == []
      modifies this`irqs, this`works, this`handlers, this`pci
      ensures Paired()
      ensures ok <==> Grants(kernel, Pin, 1)
      ensures ok ==> irqs == Made(Assigned(kernel, Pin, 1)) && handlers == old(handlers) + multiset(Assigned(kernel, Pin, 1)) && pci == IntPin
      ensures !ok ==> irqs == [] && handlers == old(handlers) && pci == old(pci)
    {
      hide Pairs, Unique, Made, RequestsGranted, NodesGranted;
      ok := BindSingle(kernel);
      if ok {
        pci := IntPin;
      }
    }

    method SetIntMsiSingle(kernel: Kernel) returns (ok: bool)
      requires irqs == [] && works == []
      modifies this`irqs, this`works, this`handlers, this`pci
      ensures Paired()
      ensures ok <==> Grants(kernel, MsiSingle, 1)
      ensures ok ==> irqs == Made(Assigned(kernel, MsiSingle, 1)) && handlers == old(handlers) + multiset(Assigned(kernel, MsiSingle, 1)) && pci == Msi
      ensures !ok ==> irqs == [] && handlers == old(handlers) && pci == if kernel.enable then Off else old(pci)
    {
      hide Pairs, Unique, Made, RequestsGranted, NodesGranted;
      Nothing();
      if !kernel.enable {
        return false;
      }
      pci := Msi;
      ok := BindSingle(kernel);
      if !ok {
        pci := Off;
      }
    }

    /** A failure after the vectors were allocated does not give them back. */
    method SetIntMsiMulti(n: nat, kernel: Kernel) returns (ok: bool)
      requires irqs == [] && works == []
      modifies this`irqs, this`works, this`handlers, this`pci
      ensures Paired()
      ensures ok <==> Grants(kernel, MsiMulti, n)
      ensures ok ==> irqs == Made(Assigned(kernel, MsiMulti, n)) && handlers == old(handlers) + multiset(Assigned(kernel, MsiMulti, n))
      ensures !ok ==> irqs == [] && handlers == old(handlers)
      ensures (ok ==> kernel.enable) && pci == if kernel.enable then Msi else old(pci)
    {
      hide Pairs, Unique, Made, RequestsGranted, NodesGranted;
      Nothing();
      if !kernel.enable {
        return false;
      }
      pci := Msi;
      ok := BindVectors(Block(kernel.vector(0), n), kernel, true);
    }

    method SetIntMsix(n: nat, kernel: Kernel) returns (ok: bool)
      requires irqs == [] && works == []
      modifies this`irqs, this`works, this`handlers, this`pci
      ensures Paired()
      ensures ok <==> Grants(kernel, MsiX, n)
      ensures ok ==> irqs == Made(Assigned(kernel, MsiX, n)) && handlers == old(handlers) + multiset(Assigned(kernel, MsiX, n)) && pci == Msix
      ensures !ok ==> irqs == [] && handlers == old(handlers) && pci == if kernel.enable then Off else old(pci)
    {
      hide Pairs, Unique, Made, RequestsGranted, NodesGranted, Distinct;
      Nothing();
      if !kernel.enable {
        return false;
      }
      pci := Msix;
      ok := BindVectors(seq<nat>(n, i requires i >= 0 => kernel.vector(i)), kernel, kernel.pbaClear);
      if !ok {
        pci := Off;
      }
    }

    /** Frees the handler of every irq node. */
    method FreeHandlers()
      requires handlers == multiset(Vectors(irqs))
      modifies this`handlers
      ensures handlers == multiset{}
    {
      ghost var vs := Vectors(irqs);
      assert vs[0..] == vs;
      for i := 0 to |irqs|
        invariant handlers == multiset(vs[i..])
      {
        assert vs[i..] == [vs[i]] + vs[i + 1..];
        handlers := handlers - multiset{irqs[i].vec};
      }
      assert vs[|irqs|..] == [];
    }

    method CleanInterrupt()
      requires Inv()
      modifies this
      ensures Inv() && kind == NoIrq && irqs == [] && works == [] && count == 0 && !workqueue && handlers == multiset{}
      ensures old(pci) == ModeOf(old(kind)) ==> pci == Off
    {
      hide Unique, Vectors, Pairs, Made;
      Nothing();
      FreeHandlers();
      match kind {
        case MsiSingle => pci := Off;
        case MsiMulti => pci := Off;
        case MsiX => pci := Off;
        case Pin => pci := Off;
        case NoIrq =>
        case Unknown =>
      }
      workqueue := false;
      irqs, works := [], [];
      kind, count := NoIrq, 0;
    }

    /** Sets up a scheme on empty lists. */
    method SetScheme(newKind: Kind, n: nat, kernel: Kernel) returns (ok: bool)
      requires irqs == [] && works == [] && handlers == multiset{} && newKind != Unknown
      modifies this`irqs, this`works, this`handlers, this`pci
      ensures Paired()
      ensures ok <==> Grants(kernel, newKind, n)
      ensures irqs == if ok then Made(Assigned(kernel, newKind, n)) else []
      ensures handlers == if ok then multiset(Assigned(kernel, newKind, n)) else multiset{}
      ensures ok && newKind != NoIrq ==> pci == ModeOf(newKind)
      ensures ok && newKind == NoIrq ==> pci == old(pci)
      ensures !ok && newKind != MsiMulti ==> pci == old(pci) || pci == Off
      ensures !ok && newKind == MsiMulti ==> pci == if kernel.enable then Msi else old(pci)
    {
      hide Pairs, Vectors, Made, Unique, Grants, Assigned;
      Nothing();
      NothingToGrant(kernel, n);
      OneVector(kernel, n);
      match newKind {
        case MsiSingle => ok := SetIntMsiSingle(kernel);
        case MsiMulti => ok := SetIntMsiMulti(n, kernel);
        case MsiX => ok := SetIntMsix(n, kernel);
        case Pin => ok := SetIntPin(kernel);
        case NoIrq => ok := true;
      }
    }

    /** Is there, or can there be, a work queue for a new scheme? */
    ghost predicate HasWorkqueue(kernel: Kernel)
      reads this
    {
      kernel.workqueue || (kind == NoIrq && workqueue)
    }

    /** Cleans an active scheme and sees to a work queue. */
    method Renew(kernel: Kernel) returns (ok: bool)
      requires Inv()
      modifies this
      ensures Inv() && ok == workqueue == old(HasWorkqueue(kernel))
      ensures kind == NoIrq && irqs == [] && works == [] && handlers == multiset{}
      ensures old(pci) == ModeOf(old(kind)) ==> pci == Off
    {
      hide Pairs, Vectors, Made, Unique;
      if kind != NoIrq {
        CleanInterrupt();
      }
      IdleIsEmpty();
      if !workqueue {
        workqueue := kernel.workqueue;
      }
      ok := workqueue;
    }

    /**
     Sets a new scheme. On failure after the parameter check nothing is left of the old scheme nor
     of the new one; the PCI function is left enabled exactly when multiple-message MSI failed late.
     */
    method SetInterrupt(caps: Caps, newKind: Kind, n: nat, kernel: Kernel) returns (ok: bool)
      requires Inv()
      modifies this
      ensures Inv()
      ensures ok <==> Accepts(caps, newKind, n) && old(HasWorkqueue(kernel)) && Grants(kernel, newKind, n)
      ensures ok ==> kind == newKind && count == n && irqs == Made(Assigned(kernel, newKind, n))
      ensures !ok && Accepts(caps, newKind, n) ==> kind == NoIrq && irqs == [] && works == [] && handlers == multiset{} && !workqueue
      ensures !Accepts(caps, newKind, n) ==> unchanged(this)
      ensures old(pci) == ModeOf(old(kind)) ==>
                (pci != ModeOf(kind) <==>
                 !ok && Accepts(caps, newKind, n) && old(HasWorkqueue(kernel)) && newKind == MsiMulti && kernel.enable)
    {
      hide Pairs, Vectors, Made, Unique, Grants, Assigned, Accepts, Inv;
      Nothing();
      if !Accepts(caps, newKind, n) {
        return false;
      }
      ok := Renew(kernel);
      if !ok {
        return;
      }
      KnownKind(caps, newKind, n);
      ok := SetScheme(newKind, n, kernel);
      if !ok {
        workqueue := false;
        EmptyIsInv();
        return;
      }
      kind, count := newKind, n;
      MadeIsInv(kernel, caps);
    }

    /** Binds a completion queue to an interrupt. */
    method BindCq(cq: nat, irqNo: nat, alloc: bool) returns (ok: bool)
      requires Inv()
      modifies this`irqs
      ensures Inv() && |irqs| == |old(irqs)|
      ensures ok <==> irqNo < |irqs| && (cq in old(irqs)[irqNo].icqs || alloc)
      ensures ok && cq !in old(irqs)[irqNo].icqs ==>
                irqs == old(irqs)[irqNo := old(irqs)[irqNo].(icqs := old(irqs)[irqNo].icqs + [cq])]
      ensures !ok || cq in old(irqs)[irqNo].icqs ==> irqs == old(irqs)
    {
      hide Pairs, Unique, Vectors;
      assert irqNo < |irqs| ==> Pairs(irqs)[irqNo].id == irqNo;
      var at := FindById(Pairs(irqs), irqNo);
      if at.None? {
        return false;
      }
      ghost var was := irqs;
      ok := CreateIcqNode(at.value, cq, alloc);
      assert at.value == irqNo;
      Rebound(was, irqNo, irqs[irqNo].icqs);
      DistinctOneMore(was[irqNo].icqs, cq);
    }

    /** Unbinds a completion queue from an interrupt, if both are there. */
    method UnbindCq(cq: nat, irqNo: nat)
      requires Inv()
      modifies this`irqs
      ensures Inv() && |irqs| == |old(irqs)|
      ensures irqNo < |irqs| ==> cq !in irqs[irqNo].icqs
      ensures irqNo >= |old(irqs)| || cq !in old(irqs)[irqNo].icqs ==> irqs == old(irqs)
      ensures irqNo < |old(irqs)| ==>
                forall k :: 0 <= k < |old(irqs)[irqNo].icqs| && old(irqs)[irqNo].icqs[k] == cq ==>
                  irqs == old(irqs)[irqNo := old(irqs)[irqNo].(icqs := Without(old(irqs)[irqNo].icqs, k))]
    {
      hide Pairs, Unique, Vectors;
      assert irqNo < |irqs| ==> Pairs(irqs)[irqNo].id == irqNo;
      var at := FindById(Pairs(irqs), irqNo);
      if at.None? {
        return;
      }
      ghost var was := irqs;
      var icqs := irqs[at.value].icqs;
      for k := 0 to |icqs|
        invariant irqs == was && forall j :: 0 <= j < k ==> icqs[j] != cq
      {
        if icqs[k] == cq {
          Rebound(irqs, irqNo, Without(icqs, k));
          DistinctWithout(icqs, k);
          irqs := irqs[at.value := irqs[at.value].(icqs := Without(icqs, k))];
          return;
        }
      }
    }

    /** The invariant holds after every run, whatever the kernel answers. */
    method Run(steps: seq<Step>)
      requires Inv()
      modifies this
      ensures Inv()
      ensures kind == NoIrq ==> irqs == [] && works == [] && handlers == multiset{}
    {
      hide Inv;
      for i := 0 to |steps|
        invariant Inv()
      {
        match steps[i] {
          case SetTo(caps, newKind, n, kernel) =>
            var ok := SetInterrupt(caps, newKind, n, kernel);
          case Clean =>
            CleanInterrupt();
          case Bind(cq, irqNo, alloc) =>
            var ok := BindCq(cq, irqNo, alloc);
          case Unbind(cq, irqNo) =>
            UnbindCq(cq, irqNo);
        }
      }
      if kind == NoIrq {
        IdleIsEmpty();
      }
    }

    lemma {:induction false} IdleIsEmpty()
      requires Inv() && kind == NoIrq
      ensures irqs == [] && works == [] && handlers == multiset{}
    {
      assert Vectors(irqs) == [];
    }

    lemma {:induction false} EmptyIsInv()
      requires irqs == [] && Paired() && handlers == multiset{} && kind == NoIrq
      ensures Inv() && works == []
    {
      assert Vectors(irqs) == [];
    }

    lemma {:induction false} MadeIsInv(kernel: Kernel, caps: Caps)
      requires Accepts(caps, kind, count) && Paired() && workqueue
      requires irqs == Made(Assigned(kernel, kind, count)) && handlers == multiset(Assigned(kernel, kind, count))
      ensures Inv()
    {
      hide Made, Vectors, Pairs, Unique;
      MadeIs(Assigned(kernel, kind, count));
    }
  }

  /** What a scheme fails without: its handlers and nodes, MSI or MSI-X switched on, and for MSI-X no vector twice and no pending bit. */
  lemma {:induction false} RequiredGrants(kernel: Kernel, n: nat)
    ensures var one := kernel.request(0) && kernel.irqNode(0) && kernel.workNode(0) && kernel.icqNode;
            && (Grants(kernel, Pin, n) <==> one)
            && (Grants(kernel, MsiSingle, n) <==> one && kernel.enable)
    ensures var all := (forall j: nat :: j < n ==> kernel.request(j) && kernel.irqNode(j) && kernel.workNode(j)) && (n > 0 ==> kernel.icqNode);
            && (Grants(kernel, MsiMulti, n) <==> all && kernel.enable)
            && (Grants(kernel, MsiX, n) <==> all && kernel.enable && kernel.pbaClear &&
                                             forall i: nat, j: nat :: i < j < n ==> kernel.vector(i) != kernel.vector(j))
  {
    OneGranted(kernel);
    OneVector(kernel, n);
    var vs := Assigned(kernel, MsiX, n);
    assert forall i :: 0 <= i < n ==> vs[i] == kernel.vector(i);
    if forall i: nat, j: nat :: i < j < n ==> kernel.vector(i) != kernel.vector(j) {
      assert Distinct(vs);
    }
    if Distinct(vs) {
      forall i: nat, j: nat | i < j < n ensures kernel.vector(i) != kernel.vector(j) {
        assert vs[i] != vs[j];
      }
    }
  }

  /** What the device must offer, and how many vectors each scheme may ask for. */
  lemma {:induction false} AcceptedRequests(caps: Caps, kind: Kind, n: nat)
    ensures caps.enabled || kind == Unknown ==> !Accepts(caps, kind, n)
    ensures !caps.enabled && (kind == Pin || kind == NoIrq) ==> Accepts(caps, kind, n)
    ensures !caps.enabled ==> (Accepts(caps, MsiSingle, n) <==> n == 1 && caps.msi)
    ensures !caps.enabled && caps.msi ==> (Accepts(caps, MsiMulti, n) <==> exists limit :: caps.msiLimit == Some(limit) && 1 <= n <= limit && n <= 32)
    ensures !caps.msi ==> !Accepts(caps, MsiMulti, n)
    ensures !caps.enabled ==> (Accepts(caps, MsiX, n) <==> exists limit :: caps.msixLimit == Some(limit) && 1 <= n <= limit && n <= 2048)
  {
    if caps.msiLimit.Some? {
      assert caps.msiLimit == Some(caps.msiLimit.value);
    }
    if caps.msixLimit.Some? {
      assert caps.msixLimit == Some(caps.msixLimit.value);
    }
  }

  lemma {:induction false} KnownKind(caps: Caps, kind: Kind, n: nat)
    requires Accepts(caps, kind, n)
    ensures kind != Unknown
  {
  }
}
