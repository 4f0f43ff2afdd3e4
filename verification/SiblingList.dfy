/**
 The children of an array or object node in lib/json/core.c: a doubly linked list whose head's
 `prev` is the tail. Each list operation is tied to the matching edit of the sequence of children.
 */
module SiblingList {
  import opened Wrappers
  import opened Sequences

  // ----- edits of sequences

  /** Where an insertion at `w` goes: too large an index means the end. */
  function Place(length: nat, w: int): (p: nat)
    ensures p <= length
  {
    if 0 <= w < length then w else length
  }

  function Inserted<T>(s: seq<T>, i: nat, x: T): (r: seq<T>)
    requires i <= |s|
    ensures |r| == |s| + 1
  {
    s[..i] + [x] + s[i..]
  }

  /** No other position holds the element at `k`. */
  lemma {:induction false} OnlyAt<T>(s: seq<T>, k: int)
    requires Distinct(s)
    ensures 0 <= k < |s| ==> forall i :: 0 <= i < |s| && i != k ==> s[i] != s[k]
  {
  }

  lemma {:induction false} DistinctInserted<T>(s: seq<T>, k: nat, x: T)
    requires Distinct(s) && k <= |s|
    ensures Distinct(Inserted(s, k, x)) <==> x !in s
  {
    var r := Inserted(s, k, x);
    if x in s {
      var j :| 0 <= j < |s| && s[j] == x;
      assert r[k] == x && r[if j < k then j else j + 1] == x;
    }
  }

  ghost function Position(s: seq<Node>, x: Node): (k: nat)
    requires x in s
    ensures k < |s| && s[k] == x
  {
    var k :| 0 <= k < |s| && s[k] == x;
    k
  }

  /** The `next` of the node at position `i`. */
  ghost function NextOf(s: seq<Node>, i: nat): Node?
    requires i < |s|
  {
    if i + 1 < |s| then s[i + 1] else null
  }

  /** The `prev` of the node at position `i`: the head's is the tail. */
  ghost function PrevOf(s: seq<Node>, i: nat): Node?
    requires i < |s|
  {
    if i > 0 then s[i - 1] else s[|s| - 1]
  }

  lemma {:induction false} LinksAt(s: seq<Node>, k: nat)
    requires k < |s|
    ensures NextOf(s, k) == if k + 1 < |s| then s[k + 1] else null
    ensures PrevOf(s, k) == if k > 0 then s[k - 1] else s[|s| - 1]
    ensures PrevOf(s, k) in s
  {
  }

  lemma {:induction false} HeadWithout(s: seq<Node>, k: nat)
    requires k < |s|
    ensures var r := Without(s, k);
            (if r == [] then null else r[0]) == if k == 0 then NextOf(s, k) else s[0]
  {
  }

  /** Links in a list that has just grown by its element `k`. */
  lemma {:induction false} PrefixLinks(s: seq<Node>, k: nat, i: nat)
    requires i <= k < |s|
    ensures NextOf(s[..k + 1], i) == if i == k then null else if i + 1 == k then s[k] else NextOf(s[..k], i)
    ensures i > 0 ==> PrevOf(s[..k + 1], i) == if i == k then s[k - 1] else PrevOf(s[..k], i)
  {
  }

  /** Where the element at position `i` of a sequence without its `k`-th came from. */
  function Skip(k: nat, i: nat): (j: nat) {
    if i < k then i else i + 1
  }

  lemma {:induction false} WithoutLinks(s: seq<Node>, k: nat, i: nat)
    requires k < |s| && i < |s| - 1
    ensures var j, r := Skip(k, i), Without(s, k);
            && r[i] == s[j]
            && NextOf(r, i) == (if j + 1 == k then NextOf(s, k) else NextOf(s, j))
            && PrevOf(r, i) == (if j == k + 1 || (j == 0 && k + 1 == |s|) then PrevOf(s, k) else PrevOf(s, j))
  {
  }

  lemma {:induction false} InsertedLinks(s: seq<Node>, k: nat, x: Node, i: nat)
    requires k <= |s| && i < |s|
    ensures var j, r := Skip(k, i), Inserted(s, k, x);
            && r[j] == s[i]
            && NextOf(r, j) == (if i + 1 == k then x else NextOf(s, i))
            && PrevOf(r, j) == (if i == k || (i == 0 && k == |s|) then x else PrevOf(s, i))
  {
  }

  lemma {:induction false} AppendIs<T>(s: seq<T>, x: T)
    ensures Inserted(s, |s|, x) == s + [x]
  {
  }

  /** The inserted node itself, and the head. */
  lemma {:induction false} InsertedItem(s: seq<Node>, k: nat, x: Node)
    requires k <= |s|
    ensures var r := Inserted(s, k, x);
            && r[k] == x && r[0] == (if k == 0 then x else s[0])
            && NextOf(r, k) == (if k < |s| then s[k] else null)
            && PrevOf(r, k) == (if s == [] then x else if k > 0 then s[k - 1] else s[|s| - 1])
  {
  }

  lemma {:induction false} DistinctReplaced<T>(s: seq<T>, k: nat, x: T)
    requires Distinct(s) && k < |s| && x !in s
    ensures Distinct(s[k := x])
  {
  }

  lemma {:induction false} PositionIs(s: seq<Node>, k: nat)
    requires Distinct(s) && k < |s|
    ensures Position(s, s[k]) == k
  {
  }

  lemma {:induction false} WithoutMembers(s: seq<Node>, k: nat)
    requires Distinct(s) && k < |s|
    ensures forall x :: x in s <==> x == s[k] || x in Without(s, k)
  {
    forall x | x in s
      ensures x == s[k] || x in Without(s, k)
    {
      var j := Position(s, x);
      assert j != k ==> Without(s, k)[if j < k then j else j - 1] == x;
    }
  }

  lemma {:induction false} InsertedMembers(s: seq<Node>, w: int, x: Node)
    ensures w >= 0 ==> forall y :: y in Inserted(s, Place(|s|, w), x) <==> y == x || y in s
  {
    if w >= 0 {
      var k := Place(|s|, w);
      forall y | y in s
        ensures y in Inserted(s, k, x)
      {
        var j := Position(s, y);
        assert Inserted(s, k, x)[Skip(k, j)] == y;
      }
      assert Inserted(s, k, x)[k] == x;
    }
  }

  lemma {:induction false} ReplacedMembers(s: seq<Node>, k: nat, x: Node)
    requires Distinct(s) && k < |s|
    ensures forall y :: y in s[k := x] <==> y == x || (y in s && y != s[k])
  {
    forall y | y in s && y != s[k]
      ensures y in s[k := x]
    {
      var j := Position(s, y);
      assert s[k := x][j] == y;
    }
    assert s[k := x][k] == x;
  }

  /** The first child with the key, from position `i` on; a child without a name ends the search. */
  ghost function Named(s: seq<Node>, key: string, i: nat): (item: Node?)
    requires i <= |s|
    reads s
    decreases |s| - i
  {
    if i == |s| || s[i].name.None? then null
    else if s[i].name == Some(key) then s[i]
    else Named(s, key, i + 1)
  }

  /** Among named children the search finds a key exactly when a child has it. */
  lemma {:induction false} NamedFinds(s: seq<Node>, key: string, i: nat)
    requires i <= |s| && forall j :: i <= j < |s| ==> s[j].name.Some?
    ensures Named(s, key, i) == null <==> forall j :: i <= j < |s| ==> s[j].name != Some(key)
    ensures Named(s, key, i) != null ==> Named(s, key, i) in s[i..] && Named(s, key, i).name == Some(key)
    decreases |s| - i
  {
    if i < |s| && s[i].name != Some(key) {
      NamedFinds(s, key, i + 1);
      assert s[i..][1..] == s[i + 1..];
    }
  }

  // ----- runs of edits

  datatype Edit =
    | Append(node: Node)
    | Insert(which: int, node: Node)
    | Detach(which: int)
    | Replace(which: int, node: Node)

  /** What an edit does to the sequence of children; indices out of range change nothing or append. */
  ghost function Edited(s: seq<Node>, e: Edit): seq<Node> {
    match e
    case Append(x) => s + [x]
    case Insert(w, x) => if w < 0 then s else Inserted(s, Place(|s|, w), x)
    case Detach(w) => if 0 <= w < |s| then Without(s, w) else s
    case Replace(w, x) => if 0 <= w < |s| then s[w := x] else s
  }

  ghost function EditedAll(s: seq<Node>, edits: seq<Edit>): seq<Node>
    decreases |edits|
  {
    if edits == [] then s else EditedAll(Edited(s, edits[0]), edits[1..])
  }

  /** Every node put in comes from the pool and is not in the list at that moment. */
  ghost predicate Allowed(s: seq<Node>, edits: seq<Edit>, pool: set<Node>)
    decreases |edits|
  {
    edits == [] ||
    (&& (!edits[0].Detach? ==> edits[0].node in pool && edits[0].node !in s)
     && Allowed(Edited(s, edits[0]), edits[1..], pool))
  }

  /** The children are from the pool, and the pool's other nodes are not linked to anything. */
  ghost predicate Loose(s: seq<Node>, pool: set<Node>)
    reads pool
  {
    (forall x :: x in s ==> x in pool) && forall x :: x in pool && x !in s ==> x.next == null
  }

  class Node {
    var next: Node?
    var prev: Node?
    var child: Node?
    var name: Option<string>
    /** The children in order. */
    ghost var children: seq<Node>

    constructor ()
      ensures next == null && prev == null && child == null && name == None && children == []
    {
      next, prev, child, name, children := null, null, null, None, [];
    }

    /** What the pointer fields must be for the list to hold exactly `children`. */
    ghost predicate Linked()
      reads this, children
    {
      && Distinct(children)
      && child == (if children == [] then null else children[0])
      && (forall i {:trigger NextOf(children, i)} :: 0 <= i < |children| ==> children[i].next == NextOf(children, i))
      && (forall i {:trigger PrevOf(children, i)} :: 0 <= i < |children| ==> children[i].prev == PrevOf(children, i))
    }

    method GetArrayItem(index: int) returns (item: Node?)
      requires Linked()
      ensures item == if 0 <= index < |children| then children[index] else null
    {
      if index < 0 {
        return null;
      }
      item := child;
      var left := index;
      ghost var at := 0;
      while item != null && left > 0
        invariant left >= 0 && at + left == index && at <= |children|
        invariant item == if at < |children| then children[at] else null
        decreases left
      {
        assert item.next == NextOf(children, at);
        left := left - 1;
        item := item.next;
        at := at + 1;
      }
    }

    /**
     Appends an item. The item's own `next` is only cleared when the list was empty, so the result
     is a list exactly when the item was loose or the list empty.
     */
    method AddItemToArray(item: Node?) returns (ok: bool)
      requires Linked()
      modifies this`child, this`children, children`next, children`prev, {item}`next, {item}`prev
      ensures ok <==> item != null && item != this
      ensures !ok ==> children == old(children) && Linked()
      ensures !ok && item != null ==> item.next == old(item.next) && item.prev == old(item.prev)
      ensures ok ==> children == old(children) + [item]
      ensures ok ==> (Linked() <==> item !in old(children) && (old(children) == [] || old(item.next) == null))
    {
      if item == null || item == this {
        return false;
      }
      hide Distinct, NextOf, PrevOf, Inserted;
      ghost var was := children;
      children := Inserted(was, |was|, item);
      AppendIs(was, item);
      OnlyAt(was, 0);
      OnlyAt(was, |was| - 1);
      if was != [] {
        LinksAt(was, 0);
        LinksAt(was, |was| - 1);
      }
      if child == null {
        child := item;
        item.prev := item;
        item.next := null;
      } else {
        if child.prev != null {
          child.prev.next := item;
          item.prev := child.prev;
          child.prev := item;
        }
      }
      if item in was {
        DistinctInserted(was, |was|, item);
      } else if was == [] || old(item.next) == null {
        InsertedIsLinked(was, |was|, item);
      } else {
        LinksAt(children, |was|);
      }
      ok := true;
    }

    method DetachItemViaPointer(item: Node?) returns (detached: Node?)
      requires Linked() && (item != null ==> item in children)
      modifies this`child, this`children, children`next, children`prev
      ensures Linked() && detached == item
      ensures item == null ==> children == old(children)
      ensures item != null ==> children == Without(old(children), Position(old(children), item))
      ensures item != null ==> item.next == null && item.prev == null
    {
      if item == null {
        return null;
      }
      hide Distinct, NextOf, PrevOf, Without;
      ghost var was := children;
      ghost var k: int := Position(was, item);
      OnlyAt(was, 0);
      OnlyAt(was, k - 1);
      OnlyAt(was, k);
      OnlyAt(was, k + 1);
      LinksAt(was, k);
      assert item.prev == PrevOf(was, k) && item.next == NextOf(was, k);
      if item != child {
        item.prev.next := item.next;
      }
      if item.next != null {
        item.next.prev := item.prev;
      }
      if item == child {
        child := item.next;
      } else if item.next == null {
        child.prev := item.prev;
      }
      item.prev := null;
      item.next := null;
      children := Without(children, k);
      DetachedLinks(was, k);
      detached := item;
    }

    method InsertItemInArray(which: int, newItem: Node) returns (ok: bool)
      requires Linked() && newItem !in children && (which >= |children| > 0 ==> newItem.next == null)
      modifies this`child, this`children, children`next, children`prev, newItem`next, newItem`prev
      ensures Linked()
      ensures !ok ==> newItem.next == old(newItem.next) && newItem.prev == old(newItem.prev)
      ensures ok <==> 0 <= which < |old(children)| || (which >= |old(children)| && newItem != this)
      ensures children == if !ok then old(children)
                          else Inserted(old(children), Place(|old(children)|, which), newItem)
    {
      if which < 0 {
        return false;
      }
      var afterInserted := GetArrayItem(which);
      if afterInserted == null {
        ok := AddItemToArray(newItem);
        AppendIs(old(children), newItem);
        return;
      }
      hide Distinct, NextOf, PrevOf, Inserted;
      ghost var was := children;
      OnlyAt(was, which);
      OnlyAt(was, which - 1);
      OnlyAt(was, 0);
      LinksAt(was, which);
      newItem.next := afterInserted;
      newItem.prev := afterInserted.prev;
      afterInserted.prev := newItem;
      if afterInserted == child {
        child := newItem;
      } else {
        newItem.prev.next := newItem;
      }
      children := Inserted(was, which, newItem);
      InsertedIsLinked(was, which, newItem);
      ok := true;
    }

    /** Puts the replacement in the item's place; the item itself is then freed. */
    method ReplaceItemViaPointer(item: Node?, replacement: Node?) returns (ok: bool)
      requires Linked() && (item != null && child != null ==> item in children)
      requires replacement != null ==> replacement == item || replacement !in children
      modifies this`child, this`children, children`next, children`prev, {replacement}`next, {replacement}`prev
      ensures Linked()
      ensures ok <==> old(children) != [] && replacement != null && item != null
      ensures children == if !ok then old(children) else old(children)[Position(old(children), item) := replacement]
      ensures !ok && replacement != null ==> replacement.next == old(replacement.next) && replacement.prev == old(replacement.prev)
      ensures ok && item != replacement ==> item.next == null && item.prev == null
    {
      if child == null || replacement == null || item == null {
        return false;
      }
      hide Distinct, NextOf, PrevOf;
      ghost var was := children;
      ghost var k: int := Position(was, item);
      if replacement == item {
        assert was[k := replacement] == was;
        return true;
      }
      OnlyAt(was, 0);
      OnlyAt(was, k - 1);
      OnlyAt(was, k);
      OnlyAt(was, k + 1);
      LinksAt(was, k);
      LinksAt(was, 0);
      assert item.prev == PrevOf(was, k) && item.next == NextOf(was, k);
      replacement.next := item.next;
      replacement.prev := item.prev;
      if replacement.next != null {
        replacement.next.prev := replacement;
      }
      if child == item {
        if child.prev == child {
          replacement.prev := replacement;
        }
        child := replacement;
      } else {
        if replacement.prev != null {
          replacement.prev.next := replacement;
        }
        if replacement.next == null {
          child.prev := replacement;
        }
      }
      item.next := null;
      item.prev := null;
      children := was[k := replacement];
      ReplacedIsLinked(was, k, replacement);
      ok := true;
    }

    /** Every child has a name, and no two have the same. */
    ghost predicate Keyed()
      reads this, children
    {
      && (forall i :: 0 <= i < |children| ==> children[i].name.Some?)
      && forall i, j :: 0 <= i < j < |children| ==> children[i].name != children[j].name
    }

    method GetObjectItem(key: string) returns (item: Node?)
      requires Linked()
      ensures item == Named(children, key, 0)
    {
      hide Distinct;
      item := child;
      ghost var at := 0;
      while item != null && item.name.Some? && item.name != Some(key)
        invariant at <= |children| && item == if at < |children| then children[at] else null
        invariant Named(children, key, 0) == Named(children, key, at)
        decreases |children| - at
      {
        assert item.next == NextOf(children, at);
        item := item.next;
        at := at + 1;
      }
      if item == null || item.name.None? {
        return null;
      }
    }

    /** Adds a member unless its key is found or cannot be copied; an object's keys stay distinct. */
    method AddItemToObject(key: string, item: Node?, alloc: bool) returns (ok: bool)
      requires Linked() && (item != null ==> item !in children && (children == [] || item.next == null))
      modifies this`child, this`children, children`next, children`prev, {item}`next, {item}`prev, {item}`name
      ensures Linked()
      ensures ok <==> item != null && item != this && old(Named(children, key, 0)) == null && alloc
      ensures children == if ok then old(children) + [item] else old(children)
      ensures old(Keyed()) ==> Keyed()
      ensures ok && old(Keyed()) ==> Named(children, key, 0) == item
    {
      if item == null || item == this {
        return false;
      }
      var found := GetObjectItem(key);
      if found != null || !alloc {
        return false;
      }
      hide Distinct, NextOf, PrevOf;
      ghost var was := children;
      assert old(Keyed()) ==> forall i :: 0 <= i < |was| ==> was[i].name != Some(key) by {
        if old(Keyed()) {
          NamedFinds(was, key, 0);
        }
      }
      item.name := Some(key);
      ok := AddItemToArray(item);
      if old(Keyed()) {
        NamedFinds(children, key, 0);
        assert children[|was|].name == Some(key);
      }
    }

    /**
     Links new nodes the way the parser does: each to the one before it, and at the end the head's
     `prev` to the last.
     */
    method AttachParsed(nodes: seq<Node>)
      requires Distinct(nodes) && forall i :: 0 <= i < |nodes| ==> nodes[i].next == null
      modifies this`child, this`children, nodes`next, nodes`prev
      ensures Linked() && children == nodes
    {
      hide Distinct, NextOf, PrevOf;
      var head: Node?, current: Node? := null, null;
      for k := 0 to |nodes|
        invariant head == (if k == 0 then null else nodes[0]) && current == (if k == 0 then null else nodes[k - 1])
        invariant forall i :: k <= i < |nodes| ==> nodes[i].next == null
        invariant forall i {:trigger NextOf(nodes[..k], i)} :: 0 <= i < k ==> nodes[i].next == NextOf(nodes[..k], i)
        invariant forall i {:trigger PrevOf(nodes[..k], i)} :: 0 < i < k ==> nodes[i].prev == PrevOf(nodes[..k], i)
      {
        OnlyAt(nodes, k);
        OnlyAt(nodes, k - 1);
        if head == null {
          head := nodes[k];
        } else {
          current.next := nodes[k];
          nodes[k].prev := current;
        }
        current := nodes[k];
        forall i | 0 <= i <= k
          ensures nodes[i].next == NextOf(nodes[..k + 1], i) && (i > 0 ==> nodes[i].prev == PrevOf(nodes[..k + 1], i))
        {
          PrefixLinks(nodes, k, i);
        }
      }
      assert nodes[..|nodes|] == nodes;
      if head != null {
        OnlyAt(nodes, 0);
        LinksAt(nodes, 0);
        head.prev := current;
      }
      child := head;
      children := nodes;
    }

    method DetachItemFromArray(which: int) returns (item: Node?)
      requires Linked()
      modifies this`child, this`children, children`next, children`prev
      ensures Linked() && item == if 0 <= which < |old(children)| then old(children)[which] else null
      ensures children == if item != null then Without(old(children), which) else old(children)
      ensures item != null ==> item.next == null && item.prev == null
    {
      hide Distinct, NextOf, PrevOf, Without;
      ghost var was := children;
      var found := GetArrayItem(which);
      item := DetachItemViaPointer(found);
      if item != null {
        PositionIs(was, which);
      }
    }

    method ReplaceItemInArray(which: int, newItem: Node) returns (ok: bool)
      requires Linked() && newItem !in children
      modifies this`child, this`children, children`next, children`prev, newItem`next, newItem`prev
      ensures Linked() && (ok <==> 0 <= which < |old(children)|)
      ensures children == if ok then old(children)[which := newItem] else old(children)
      ensures ok ==> old(children)[which].next == null
      ensures !ok ==> newItem.next == old(newItem.next) && newItem.prev == old(newItem.prev)
    {
      hide Distinct, NextOf, PrevOf;
      ghost var was := children;
      if which < 0 {
        return false;
      }
      var found := GetArrayItem(which);
      ok := ReplaceItemViaPointer(found, newItem);
      if ok {
        PositionIs(was, which);
      }
    }

    /** Carries out one edit. */
    method Apply(e: Edit, ghost pool: set<Node>)
      requires Linked() && Loose(children, pool) && this !in pool && Allowed(children, [e], pool)
      modifies this`child, this`children, pool`next, pool`prev
      ensures Linked() && Loose(children, pool) && children == Edited(old(children), e)
    {
      hide Distinct, NextOf, PrevOf, Without, Inserted, Place;
      ghost var was := children;
      DistinctChildren();
      match e
      case Append(x) =>
        var ok := AddItemToArray(x);
      case Insert(w, x) =>
        var ok := InsertItemInArray(w, x);
        InsertedMembers(was, w, x);
      case Detach(w) =>
        var item := DetachItemFromArray(w);
        if item != null {
          WithoutMembers(was, w);
          assert forall y :: y in pool && y !in children ==> y == item || y !in was;
        }
      case Replace(w, x) =>
        var ok := ReplaceItemInArray(w, x);
        if ok {
          ReplacedMembers(was, w, x);
          assert forall y :: y in pool && y !in children ==> y == was[w] || y !in was;
        }
    }

    lemma {:induction false} DistinctChildren()
      requires Linked()
      ensures Distinct(children)
    {
    }

    /** Any run of edits leaves the list equal to the same edits of the sequence. */
    method Run(edits: seq<Edit>, ghost pool: set<Node>)
      requires Linked() && Loose(children, pool) && this !in pool && Allowed(children, edits, pool)
      modifies this`child, this`children, pool`next, pool`prev
      ensures Linked() && Loose(children, pool) && children == EditedAll(old(children), edits)
    {
      hide Edited;
      assert edits[0..] == edits;
      for i := 0 to |edits|
        invariant Linked() && Loose(children, pool) && Allowed(children, edits[i..], pool)
        invariant EditedAll(old(children), edits) == EditedAll(children, edits[i..])
      {
        assert edits[i..][0] == edits[i] && edits[i..][1..] == edits[i + 1..];
        assert Allowed(Edited(children, edits[i]), [], pool);
        assert [edits[i]][1..] == [];
        Apply(edits[i], pool);
      }
      assert edits[|edits|..] == [];
    }

    /** After the writes of an insertion the list is the old one with the item in place. */
    lemma {:induction false} InsertedIsLinked(was: seq<Node>, k: nat, x: Node)
      requires k <= |was| && Distinct(was) && x !in was && children == Inserted(was, k, x)
      requires child == if k == 0 then x else was[0]
      requires forall j {:trigger NextOf(was, j)} :: 0 <= j < |was| ==>
                 was[j].next == if j + 1 == k then x else NextOf(was, j)
      requires forall j {:trigger PrevOf(was, j)} :: 0 <= j < |was| ==>
                 was[j].prev == if j == k || (j == 0 && k == |was|) then x else PrevOf(was, j)
      requires x.next == if k < |was| then was[k] else null
      requires x.prev == if was == [] then x else if k > 0 then was[k - 1] else was[|was| - 1]
      ensures Linked()
    {
      hide NextOf, PrevOf, Inserted, Distinct;
      DistinctInserted(was, k, x);
      InsertedItem(was, k, x);
      forall i | 0 <= i < |children|
        ensures children[i].next == NextOf(children, i) && children[i].prev == PrevOf(children, i)
      {
        if i != k {
          var j := if i < k then i else i - 1;
          InsertedLinks(was, k, x, j);
          LinksAt(was, j);
        }
      }
    }

    /** After the writes of a replacement the list is the old one with the item changed. */
    lemma {:induction false} ReplacedIsLinked(was: seq<Node>, k: nat, x: Node)
      requires k < |was| && Distinct(was) && x !in was && children == was[k := x]
      requires child == if k == 0 then x else was[0]
      requires forall j {:trigger NextOf(was, j)} :: 0 <= j < |was| && j != k ==>
                 was[j].next == if j + 1 == k then x else NextOf(was, j)
      requires forall j {:trigger PrevOf(was, j)} :: 0 <= j < |was| && j != k ==>
                 was[j].prev == if j == k + 1 || (j == 0 && k + 1 == |was|) then x else PrevOf(was, j)
      requires x.next == NextOf(was, k) && x.prev == if |was| == 1 then x else PrevOf(was, k)
      ensures Linked()
    {
      hide NextOf, PrevOf, Distinct;
      DistinctReplaced(was, k, x);
      forall i | 0 <= i < |children|
        ensures children[i].next == NextOf(children, i) && children[i].prev == PrevOf(children, i)
      {
        LinksAt(was, i);
        LinksAt(children, i);
      }
    }

    /** After the writes of a detach the list is the old one without the item. */
    lemma {:induction false} DetachedLinks(was: seq<Node>, k: nat)
      requires k < |was| && Distinct(was) && children == Without(was, k)
      requires child == if k == 0 then NextOf(was, k) else was[0]
      requires forall j {:trigger NextOf(was, j)} :: 0 <= j < |was| && j != k ==>
                 was[j].next == if j + 1 == k then NextOf(was, k) else NextOf(was, j)
      requires forall j {:trigger PrevOf(was, j)} :: 0 <= j < |was| && j != k ==>
                 was[j].prev == if j == k + 1 || (j == 0 && k + 1 == |was|) then PrevOf(was, k) else PrevOf(was, j)
      ensures Linked()
    {
      hide NextOf, PrevOf, Without, Distinct;
      DistinctWithout(was, k);
      HeadWithout(was, k);
      forall i | 0 <= i < |children|
        ensures children[i].next == NextOf(children, i) && children[i].prev == PrevOf(children, i)
      {
        WithoutLinks(was, k, i);
        LinksAt(was, Skip(k, i));
      }
    }
  }
}
