/**
 The intrusive doubly linked list of include/sancus/list.h: nodes on a circle through
 a head that carries no data.
 */
module Ring {

  class Node {
    var prev: Node
    var next: Node

    constructor ()
      ensures prev == this && next == this
    {
      prev, next := this, this;
    }

    /** sancus_list_init */
    method Init()
      modifies this
      ensures IsRing([this])
    {
      prev, next := this, this;
    }
  }

  /** The nodes of `r` stand on one circle, in this order both ways. */
  ghost predicate IsRing(r: seq<Node>)
    reads r
  {
    && r != []
    && Distinct(r)
    && (forall i {:trigger r[i].next} :: 0 <= i < |r| ==> r[i].next == After(r, i))
    && (forall i {:trigger r[i].prev} :: 0 <= i < |r| ==> r[i].prev == Before(r, i))
  }

  predicate Distinct(r: seq<Node>) {
    forall i, j :: 0 <= i < j < |r| ==> r[i] != r[j]
  }

  lemma DistinctAt(r: seq<Node>, i: nat, j: nat)
    requires Distinct(r) && i < |r| && j < |r| && i != j
    ensures r[i] != r[j]
  {
  }

  lemma DistinctAfterInsert(r: seq<Node>, k: nat, x: Node)
    requires Distinct(r) && x !in r && k <= |r|
    ensures Distinct(InsertAt(r, k, x))
  {
  }

  lemma DistinctAfterRemove(r: seq<Node>, k: nat)
    requires Distinct(r) && k < |r|
    ensures Distinct(RemoveAt(r, k))
  {
  }

  ghost function After(r: seq<Node>, i: nat): Node
    requires i < |r|
  {
    if i + 1 < |r| then r[i + 1] else r[0]
  }

  ghost function Before(r: seq<Node>, i: nat): Node
    requires i < |r|
  {
    if i == 0 then r[|r| - 1] else r[i - 1]
  }

  /** The links leave no choice: there is one ring through a head. */
  lemma RingIsUnique(r: seq<Node>, r': seq<Node>)
    requires IsRing(r) && IsRing(r') && r[0] == r'[0]
    ensures r == r'
  {
    forall i | 0 <= i < |r|
      ensures i < |r'| && r[i] == r'[i]
    {
      RingsAgree(r, r', i);
    }
    RingsAgree(r, r', |r| - 1);
    RingsAgree(r', r, |r'| - 1);
    assert |r| == |r'|;
  }

  lemma {:induction false} RingsAgree(r: seq<Node>, r': seq<Node>, i: nat)
    requires IsRing(r) && IsRing(r') && r[0] == r'[0]
    requires i < |r|
    ensures i < |r'| && r[i] == r'[i]
  {
    if i > 0 {
      RingsAgree(r, r', i - 1);
      DistinctAt(r, 0, i);
      assert r[i - 1].next == After(r, i - 1) && r'[i - 1].next == After(r', i - 1);
    }
  }

  function InsertAt<T>(s: seq<T>, k: nat, x: T): seq<T>
    requires k <= |s|
  {
    s[..k] + [x] + s[k..]
  }

  function RemoveAt<T>(s: seq<T>, k: nat): seq<T>
    requires k < |s|
  {
    s[..k] + s[k + 1..]
  }

  // ------------------------------------------------------------- operations

  /** sancus_list__inject: `self` comes between two neighbours. */
  method Inject(self: Node, prev: Node, next: Node, ghost r: seq<Node>, ghost k: nat)
    requires IsRing(r) && self !in r
    requires k < |r| && prev == r[k] && next == prev.next
    modifies self, prev, next
    ensures IsRing(InsertAt(r, k + 1, self))
  {
    hide Distinct;
    ghost var r', m := InsertAt(r, k + 1, self), if k + 1 < |r| then k + 1 else 0;
    DistinctAfterInsert(r, k + 1, self);
    assert next == r[m];
    self.prev, self.next := prev, next;
    prev.next := self;
    next.prev := self;
    forall i | 0 <= i < |r'|
      ensures r'[i] == if i == k + 1 then self else r[BeforeInsert(k, i)]
      ensures r'[i].next == After(r', i)
      ensures r'[i].prev == Before(r', i)
    {
      if i != k + 1 {
        var j := BeforeInsert(k, i);
        assert old(r[j].next) == After(r, j) && old(r[j].prev) == Before(r, j);
        if j != k { DistinctAt(r, j, k); }
        if j != m { DistinctAt(r, j, m); }
      }
    }
  }

  /** Where the i-th node of a ring with a new node k + 1 was before. */
  ghost function BeforeInsert(k: nat, i: nat): nat {
    if i <= k || i == 0 then i else i - 1
  }

  /** sancus_list_insert */
  method Insert(head: Node, item: Node, ghost elems: seq<Node>)
    requires IsRing([head] + elems) && item !in [head] + elems
    modifies item, head, head.next
    ensures IsRing([head] + ([item] + elems))
  {
    Inject(item, head, head.next, [head] + elems, 0);
    assert InsertAt([head] + elems, 1, item) == [head] + ([item] + elems);
  }

  /** sancus_list_append */
  method Append(head: Node, item: Node, ghost elems: seq<Node>)
    requires IsRing([head] + elems) && item !in [head] + elems
    modifies item, head, head.prev
    ensures IsRing([head] + (elems + [item]))
  {
    ghost var r := [head] + elems;
    assert r[0].prev == r[|elems|] && r[|elems|].next == After(r, |elems|);
    Inject(item, head.prev, head, r, |elems|);
    assert InsertAt(r, |elems| + 1, item) == [head] + (elems + [item]);
  }

  /** sancus_list_insert_before; before the head is at the end. */
  method InsertBefore(item: Node, at: Node, ghost head: Node, ghost elems: seq<Node>, ghost k: nat)
    requires IsRing([head] + elems) && item !in [head] + elems
    requires k <= |elems| && at == if k < |elems| then elems[k] else head
    modifies item, at, at.prev
    ensures IsRing([head] + InsertAt(elems, k, item))
  {
    ghost var r := [head] + elems;
    assert at == After(r, k) && r[k].next == After(r, k);
    ghost var m := if k < |elems| then k + 1 else 0;
    assert at == r[m] && r[m].prev == r[k];
    Inject(item, at.prev, at, r, k);
    assert InsertAt(r, k + 1, item) == [head] + InsertAt(elems, k, item);
  }

  /** sancus_list__del: close the gap left by node k + 1. */
  method Unlink(prev: Node, next: Node, ghost r: seq<Node>, ghost k: nat)
    requires IsRing(r) && k + 1 < |r|
    requires prev == r[k] && next == After(r, k + 1)
    modifies prev, next
    ensures IsRing(RemoveAt(r, k + 1))
  {
    hide Distinct, RemoveAt, After, Before;
    ghost var r', m := RemoveAt(r, k + 1), if k + 2 < |r| then k + 2 else 0;
    DistinctAfterRemove(r, k + 1);
    GapClosed(r, k, 0);
    next.prev := prev;
    prev.next := next;
    forall i | 0 <= i < |r'|
      ensures r'[i] == r[BeforeRemove(k, i)]
      ensures r'[i].next == After(r', i)
      ensures r'[i].prev == Before(r', i)
    {
      GapClosed(r, k, i);
      var j := BeforeRemove(k, i);
      assert old(r[j].next) == After(r, j) && old(r[j].prev) == Before(r, j);
      if j != k { DistinctAt(r, j, k); }
      if j != m { DistinctAt(r, j, m); }
    }
  }

  /** The neighbours on a ring without its node k + 1 are those of before, but for the
      two at the gap. */
  lemma GapClosed(r: seq<Node>, k: nat, i: nat)
    requires k + 1 < |r| && i < |r| - 1
    ensures var r', j, m := RemoveAt(r, k + 1), BeforeRemove(k, i), if k + 2 < |r| then k + 2 else 0;
      && |r'| == |r| - 1 && r'[i] == r[j]
      && After(r, k + 1) == r[m]
      && After(r', i) == (if j == k then r[m] else After(r, j))
      && Before(r', i) == (if j == m then r[k] else Before(r, j))
  {
  }

  /** sancus_list_del; the node taken out keeps its links. */
  method Del(self: Node, ghost head: Node, ghost elems: seq<Node>, ghost k: nat)
    requires IsRing([head] + elems)
    requires k < |elems| && self == elems[k]
    modifies self.prev, self.next
    ensures IsRing([head] + RemoveAt(elems, k))
    ensures self.prev == old(self.prev) && self.next == old(self.next)
  {
    ghost var r := [head] + elems;
    assert r[k + 1].prev == Before(r, k + 1) && r[k + 1].next == After(r, k + 1);
    Unlink(self.prev, self.next, r, k);
    assert RemoveAt(r, k + 1) == [head] + RemoveAt(elems, k);
  }

  /** Where the i-th node of a ring without its node k + 1 was before. */
  ghost function BeforeRemove(k: nat, i: nat): nat {
    if i <= k then i else i + 1
  }

  /** sancus_list_size */
  method Size(head: Node, ghost elems: seq<Node>) returns (n: nat)
    requires IsRing([head] + elems)
    ensures n == |elems|
  {
    ghost var r := [head] + elems;
    n := 0;
    assert r[0] == head;
    var item := head.next;
    while item != head
      invariant n <= |elems| && item == if n < |elems| then r[n + 1] else head
      decreases |elems| - n
    {
      n := n + 1;
      item := item.next;
    }
  }

  /** sancus_list_get: from the front for n >= 0, from the back for n < 0. */
  method Get(head: Node, n: int, ghost elems: seq<Node>) returns (item: Node?)
    requires IsRing([head] + elems)
    ensures item == if 0 <= n < |elems| then elems[n]
                    else if -|elems| <= n < 0 then elems[|elems| + n]
                    else null
  {
    ghost var r := [head] + elems;
    assert r[0] == head;
    var left := n;
    ghost var seen := 0;
    if n < 0 {
      var it := head.prev;
      while it != head
        invariant 0 <= seen <= |elems| && left == n + seen && left < 0
        invariant it == r[|elems| - seen]
        decreases |elems| - seen
      {
        left, seen := left + 1, seen + 1;
        if left == 0 {
          return it;
        }
        it := it.prev;
      }
    } else {
      var it := head.next;
      while it != head
        invariant 0 <= seen <= |elems| && left == n - seen && left >= 0
        invariant it == if seen < |elems| then r[seen + 1] else head
        decreases |elems| - seen
      {
        if left == 0 {
          return it;
        }
        left, seen := left - 1, seen + 1;
        it := it.next;
      }
    }
    item := null;
  }

  // -------------------------------------------------------------- traversal

  /** The elements a traversal keeps. */
  function Kept(elems: seq<Node>, keep: Node -> bool): seq<Node> {
    if elems == [] then [] else (if keep(elems[0]) then [elems[0]] else []) + Kept(elems[1..], keep)
  }

  lemma {:induction false} KeptSnoc(elems: seq<Node>, x: Node, keep: Node -> bool)
    ensures Kept(elems + [x], keep) == Kept(elems, keep) + if keep(x) then [x] else []
    decreases elems
  {
    if elems == [] {
      assert elems + [x] == [x];
    } else {
      KeptSnoc(elems[1..], x, keep);
      assert (elems + [x])[1..] == elems[1..] + [x];
    }
  }

  lemma {:induction false} KeptAreThoseToKeep(elems: seq<Node>, keep: Node -> bool, x: Node)
    ensures |Kept(elems, keep)| <= |elems|
    ensures x in Kept(elems, keep) <==> x in elems && keep(x)
    decreases elems
  {
    if elems != [] {
      KeptAreThoseToKeep(elems[1..], keep, x);
      assert elems == [elems[0]] + elems[1..];
    }
  }

  /** A traversal with sancus_list_foreach2 whose body takes the current element out of
      the list unless it is to be kept: every element is visited once, in order, and
      the list is left with the elements kept. */
  method ForeachDeleting(head: Node, keep: Node -> bool, ghost elems: seq<Node>) returns (visited: seq<Node>)
    requires IsRing([head] + elems)
    modifies [head] + elems
    ensures visited == elems
    ensures IsRing([head] + Kept(elems, keep))
  {
    hide Kept, IsRing, PartlyKept;
    visited := [];
    ghost var i := 0;
    PartlyKeptAtStart(elems, keep);
    NextOf(head, elems, 0);
    var item := head.next;
    var next := item.next;
    while item != head
      invariant i <= |elems| && visited == elems[..i]
      invariant IsRing([head] + PartlyKept(elems, keep, i))
      invariant item == if i < |elems| then elems[i] else head
      invariant next == item.next
      decreases |elems| - i
    {
      visited := visited + [item];
      DeleteUnlessKept(head, item, next, keep, elems, i);
      item := next;
      next := item.next;
      i := i + 1;
    }
    PartlyKeptAtEnd(head, elems, keep, i);
  }

  /** The body of the traversal. */
  method DeleteUnlessKept(head: Node, item: Node, ghost next: Node, keep: Node -> bool, ghost elems: seq<Node>, ghost i: nat)
    requires i < |elems| && item == elems[i] && next == item.next
    requires IsRing([head] + PartlyKept(elems, keep, i))
    modifies [head] + elems
    ensures IsRing([head] + PartlyKept(elems, keep, i + 1))
    ensures next == if i + 1 < |elems| then elems[i + 1] else head
  {
    hide Kept, IsRing, PartlyKept;
    ghost var now, done := PartlyKept(elems, keep, i), |Kept(elems[..i], keep)|;
    PartlyKeptStep(elems, keep, i);
    NextOf(head, now, done);
    if item.prev != head {
      PartlyKeptMembers(elems, keep, i, item.prev);
    }
    if item.next != head {
      PartlyKeptMembers(elems, keep, i, item.next);
    }
    assert item.prev in [head] + elems && item.next in [head] + elems;
    if !keep(item) {
      Del(item, head, now, done);
    }
  }

  /** Having come round to the head, a traversal has seen everything. */
  lemma PartlyKeptAtEnd(head: Node, elems: seq<Node>, keep: Node -> bool, i: nat)
    requires i <= |elems| && IsRing([head] + PartlyKept(elems, keep, i))
    ensures i < |elems| ==> elems[i] != head
    ensures i == |elems| ==> elems[..i] == elems && PartlyKept(elems, keep, i) == Kept(elems, keep)
  {
    if i < |elems| {
      PartlyKeptStep(elems, keep, i);
      NextOf(head, PartlyKept(elems, keep, i), |Kept(elems[..i], keep)|);
    } else {
      assert elems[..i] == elems;
    }
  }

  /** The list when a forward traversal stands at element `i`. */
  function PartlyKept(elems: seq<Node>, keep: Node -> bool, i: nat): seq<Node>
    requires i <= |elems|
  {
    Kept(elems[..i], keep) + elems[i..]
  }

  lemma PartlyKeptAtStart(elems: seq<Node>, keep: Node -> bool)
    ensures PartlyKept(elems, keep, 0) == elems
  {
    assert elems[..0] == [] && elems[0..] == elems;
  }

  lemma PartlyKeptStep(elems: seq<Node>, keep: Node -> bool, i: nat)
    requires i < |elems|
    ensures var now, done := PartlyKept(elems, keep, i), |Kept(elems[..i], keep)|;
      && done < |now| && now[done] == elems[i]
      && (done + 1 < |now| <==> i + 1 < |elems|)
      && (done + 1 < |now| ==> now[done + 1] == elems[i + 1])
      && PartlyKept(elems, keep, i + 1) == if keep(elems[i]) then now else RemoveAt(now, done)
  {
    hide Kept;
    KeptSnoc(elems[..i], elems[i], keep);
    assert elems[..i + 1] == elems[..i] + [elems[i]];
    var kept, rest := Kept(elems[..i], keep), elems[i + 1..];
    assert elems[i..] == [elems[i]] + rest;
    assert kept + [elems[i]] + rest == kept + ([elems[i]] + rest);
  }

  lemma PartlyKeptMembers(elems: seq<Node>, keep: Node -> bool, i: nat, x: Node)
    requires i <= |elems| && x in PartlyKept(elems, keep, i)
    ensures x in elems
  {
    hide Kept;
    KeptAreThoseToKeep(elems[..i], keep, x);
    assert x in elems[..i] || x in elems[i..];
  }

  /** What `next` leads to, from the head (k == 0) or from element k - 1. */
  lemma NextOf(head: Node, elems: seq<Node>, k: nat)
    requires IsRing([head] + elems)
    ensures k == 0 ==> head.next == if elems == [] then head else elems[0]
    ensures k < |elems| ==> elems[k].next == if k + 1 < |elems| then elems[k + 1] else head
    ensures k < |elems| ==> elems[k].prev == if k == 0 then head else elems[k - 1]
    ensures head.prev == if elems == [] then head else elems[|elems| - 1]
    ensures k < |elems| ==> elems[k] != head
  {
    var r := [head] + elems;
    assert r[0].next == After(r, 0) && r[0].prev == Before(r, 0);
    if k < |elems| {
      assert r[k + 1].next == After(r, k + 1) && r[k + 1].prev == Before(r, k + 1);
    }
  }

  /** The list when a backward traversal still has the first `i` elements to see. */
  function PartlyKeptBack(elems: seq<Node>, keep: Node -> bool, i: nat): seq<Node>
    requires i <= |elems|
  {
    elems[..i] + Kept(elems[i..], keep)
  }

  /** The same with sancus_list_foreach_back2, from the last element to the first. */
  method ForeachBackDeleting(head: Node, keep: Node -> bool, ghost elems: seq<Node>) returns (visited: seq<Node>)
    requires IsRing([head] + elems)
    modifies [head] + elems
    ensures |visited| == |elems|
    ensures forall j :: 0 <= j < |elems| ==> visited[j] == elems[|elems| - 1 - j]
    ensures IsRing([head] + Kept(elems, keep))
  {
    hide IsRing, PartlyKeptBack;
    visited := [];
    ghost var i := |elems|;
    PartlyKeptBackAtEnds(elems, keep);
    NextOf(head, elems, 0);
    var item := head.prev;
    var prev := item.prev;
    while item != head
      invariant 0 <= i <= |elems| && |visited| == |elems| - i
      invariant forall j :: 0 <= j < |visited| ==> visited[j] == elems[|elems| - 1 - j]
      invariant IsRing([head] + PartlyKeptBack(elems, keep, i))
      invariant item == if i > 0 then elems[i - 1] else head
      invariant prev == item.prev
      decreases i
    {
      visited := visited + [item];
      DeleteUnlessKeptBack(head, item, prev, keep, elems, i);
      item := prev;
      prev := item.prev;
      i := i - 1;
    }
    if i > 0 {
      PartlyKeptBackStep(elems, keep, i);
      NextOf(head, PartlyKeptBack(elems, keep, i), i - 1);
    }
  }

  method DeleteUnlessKeptBack(head: Node, item: Node, ghost prev: Node, keep: Node -> bool, ghost elems: seq<Node>, ghost i: nat)
    requires 0 < i <= |elems| && item == elems[i - 1] && prev == item.prev
    requires IsRing([head] + PartlyKeptBack(elems, keep, i))
    modifies [head] + elems
    ensures IsRing([head] + PartlyKeptBack(elems, keep, i - 1))
    ensures prev == if i > 1 then elems[i - 2] else head
  {
    hide Kept, IsRing, PartlyKeptBack;
    ghost var now := PartlyKeptBack(elems, keep, i);
    PartlyKeptBackStep(elems, keep, i);
    NextOf(head, now, i - 1);
    if item.prev != head {
      PartlyKeptBackMembers(elems, keep, i, item.prev);
    }
    if item.next != head {
      PartlyKeptBackMembers(elems, keep, i, item.next);
    }
    assert item.prev in [head] + elems && item.next in [head] + elems;
    if !keep(item) {
      Del(item, head, now, i - 1);
    }
  }

  lemma PartlyKeptBackAtEnds(elems: seq<Node>, keep: Node -> bool)
    ensures PartlyKeptBack(elems, keep, |elems|) == elems
    ensures PartlyKeptBack(elems, keep, 0) == Kept(elems, keep)
  {
    assert elems[|elems|..] == [] && elems[..|elems|] == elems;
    assert elems[0..] == elems;
  }

  lemma PartlyKeptBackStep(elems: seq<Node>, keep: Node -> bool, i: nat)
    requires 0 < i <= |elems|
    ensures var now := PartlyKeptBack(elems, keep, i);
      && i <= |now| && now[i - 1] == elems[i - 1]
      && (i > 1 ==> now[i - 2] == elems[i - 2])
      && PartlyKeptBack(elems, keep, i - 1) == if keep(elems[i - 1]) then now else RemoveAt(now, i - 1)
  {
    hide Kept, RemoveAt;
    var front, x, kept := elems[..i - 1], elems[i - 1], Kept(elems[i..], keep);
    assert elems[i - 1..][1..] == elems[i..];
    KeptCons(elems[i - 1..], keep);
    assert elems[..i] == front + [x];
    assert (front + [x]) + kept == front + ([x] + kept);
    RemoveMiddle(front, x, kept);
  }

  lemma RemoveMiddle(front: seq<Node>, x: Node, back: seq<Node>)
    ensures RemoveAt(front + [x] + back, |front|) == front + back
  {
  }

  lemma KeptCons(elems: seq<Node>, keep: Node -> bool)
    requires elems != []
    ensures Kept(elems, keep) == (if keep(elems[0]) then [elems[0]] else []) + Kept(elems[1..], keep)
  {
  }

  lemma PartlyKeptBackMembers(elems: seq<Node>, keep: Node -> bool, i: nat, x: Node)
    requires i <= |elems| && x in PartlyKeptBack(elems, keep, i)
    ensures x in elems
  {
    hide Kept;
    KeptAreThoseToKeep(elems[i..], keep, x);
    assert x in elems[..i] || x in elems[i..];
  }

  // -------------------------------------------------------------- whole runs

  datatype ListOp =
    | InsertFirst(item: Node)
    | AppendLast(item: Node)
    | PutBefore(item: Node, at: Node)
    | TakeOut(item: Node)

  /** Only nodes off the list are put on it, next to nodes that are on it, and only
      nodes on it are taken out; the head stays. */
  predicate Possible(head: Node, elems: seq<Node>, op: ListOp) {
    match op
    case InsertFirst(item) => item !in [head] + elems
    case AppendLast(item) => item !in [head] + elems
    case PutBefore(item, at) => item !in [head] + elems && at in [head] + elems
    case TakeOut(item) => item in elems && item != head
  }

  predicate PossibleRun(head: Node, elems: seq<Node>, ops: seq<ListOp>)
    decreases ops
  {
    ops == [] || (Possible(head, elems, ops[0]) && PossibleRun(head, Performed(elems, ops[0]), ops[1..]))
  }

  /** The first place of `x`, or the end. */
  function IndexOf(elems: seq<Node>, x: Node): (k: nat)
    ensures k <= |elems|
    ensures k < |elems| ==> elems[k] == x
    ensures k == |elems| <==> x !in elems
  {
    if elems == [] || elems[0] == x then 0 else 1 + IndexOf(elems[1..], x)
  }

  /** What an operation does to the sequence of elements. */
  function Performed(elems: seq<Node>, op: ListOp): seq<Node> {
    match op
    case InsertFirst(item) => [item] + elems
    case AppendLast(item) => elems + [item]
    case PutBefore(item, at) => InsertAt(elems, IndexOf(elems, at), item)
    case TakeOut(item) => if item in elems then RemoveAt(elems, IndexOf(elems, item)) else elems
  }

  /** Each operation puts its item at an end, directly before another, or takes it out. */
  lemma PerformedIs(head: Node, elems: seq<Node>, op: ListOp)
    requires Possible(head, elems, op) && head !in elems
    ensures var r := Performed(elems, op);
      match op
      case InsertFirst(item) => r == [item] + elems
      case AppendLast(item) => r == elems + [item]
      case PutBefore(item, at) =>
        if at == head then r == elems + [item]
        else exists a, b :: elems == a + ([at] + b) && r == a + ([item, at] + b)
      case TakeOut(item) => exists a, b :: elems == a + ([item] + b) && r == a + b
  {
    if op.PutBefore? {
      PutBeforeIs(elems, IndexOf(elems, op.at), op.item);
    } else if op.TakeOut? {
      TakeOutIs(elems, IndexOf(elems, op.item));
    }
  }

  lemma PutBeforeIs(elems: seq<Node>, k: nat, item: Node)
    requires k <= |elems|
    ensures k == |elems| ==> InsertAt(elems, k, item) == elems + [item]
    ensures k < |elems| ==>
      exists a, b :: elems == a + ([elems[k]] + b) && InsertAt(elems, k, item) == a + ([item, elems[k]] + b)
  {
    if k < |elems| {
      var a, b := elems[..k], elems[k + 1..];
      assert elems[k..] == [elems[k]] + b;
      assert elems == a + ([elems[k]] + b) && InsertAt(elems, k, item) == a + ([item, elems[k]] + b);
    }
  }

  lemma TakeOutIs(elems: seq<Node>, k: nat)
    requires k < |elems|
    ensures exists a, b :: elems == a + ([elems[k]] + b) && RemoveAt(elems, k) == a + b
  {
    var a, b := elems[..k], elems[k + 1..];
    assert elems == a + ([elems[k]] + b) && RemoveAt(elems, k) == a + b;
  }

  /** A run goes on where it stopped. */
  lemma {:induction false} PerformedAllSnoc(elems: seq<Node>, ops: seq<ListOp>, op: ListOp)
    ensures PerformedAll(elems, []) == elems
    ensures PerformedAll(elems, ops + [op]) == Performed(PerformedAll(elems, ops), op)
    decreases ops
  {
    hide Performed;
    if ops == [] {
      assert ([] + [op])[1..] == [];
    } else {
      assert (ops + [op])[1..] == ops[1..] + [op];
      PerformedAllSnoc(Performed(elems, ops[0]), ops[1..], op);
    }
  }

  function PerformedAll(elems: seq<Node>, ops: seq<ListOp>): seq<Node>
    decreases ops
  {
    if ops == [] then elems else PerformedAll(Performed(elems, ops[0]), ops[1..])
  }

  /** Any run of operations on a list refines the same run on a sequence. */
  method Replay(head: Node, ops: seq<ListOp>, ghost elems: seq<Node>, ghost nodes: set<Node>)
    requires IsRing([head] + elems) && PossibleRun(head, elems, ops)
    requires head in nodes && (forall x :: x in elems ==> x in nodes) && (forall op :: op in ops ==> op.item in nodes)
    modifies nodes
    ensures IsRing([head] + PerformedAll(elems, ops))
    decreases ops
  {
    hide IsRing;
    if ops != [] {
      var op := ops[0];
      assert op in ops;
      Perform(head, op, elems, nodes);
      Replay(head, ops[1..], Performed(elems, op), nodes);
    }
  }

  method Perform(head: Node, op: ListOp, ghost elems: seq<Node>, ghost nodes: set<Node>)
    requires IsRing([head] + elems) && Possible(head, elems, op)
    requires head in nodes && (forall x :: x in elems ==> x in nodes) && op.item in nodes
    modifies nodes
    ensures IsRing([head] + Performed(elems, op))
    ensures forall x :: x in Performed(elems, op) ==> x in nodes
  {
    hide IsRing;
    NextOf(head, elems, 0);
    match op
    case InsertFirst(item) =>
      Insert(head, item, elems);
    case AppendLast(item) =>
      Append(head, item, elems);
    case PutBefore(item, at) =>
      NextOf(head, elems, IndexOf(elems, at));
      InsertBefore(item, at, head, elems, IndexOf(elems, at));
    case TakeOut(item) =>
      NextOf(head, elems, IndexOf(elems, item));
      Del(item, head, elems, IndexOf(elems, item));
  }
}
