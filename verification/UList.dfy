/**
 * The circular doubly linked list of src/general/inc/ulist.h. A list is a head node and a
 * ghost sequence of members; head and members together form a ring of mutually inverse
 * links. Every operation writes only the nodes its modifies clause names, so lists
 * disjoint from those nodes keep their rings.
 */
module UList {

  class ListHead {
    var next: ListHead?
    var prev: ListHead?

    constructor ()
      ensures next == null && prev == null
    {
      next, prev := null, null;
    }
  }

  ghost predicate Distinct<T>(s: seq<T>) {
    forall i, j :: 0 <= i < j < |s| ==> s[i] != s[j]
  }

  ghost predicate Linked(a: ListHead, b: ListHead)
    reads a, b
  {
    a.next == b && b.prev == a
  }

  /** Consecutive nodes link to one another. */
  ghost predicate Chain(r: seq<ListHead>)
    reads r
  {
    forall i, j :: 0 <= i < |r| && 0 <= j < |r| && j == i + 1 ==> Linked(r[i], r[j])
  }

  ghost predicate Ring(r: seq<ListHead>)
    reads r
  {
    r != [] && Distinct(r) && Chain(r) && Linked(r[|r| - 1], r[0])
  }

  ghost predicate IsList(head: ListHead, nodes: seq<ListHead>)
    reads head, nodes
  {
    Ring([head] + nodes)
  }

  /** All nodes a list is made of. */
  ghost function Nodes(head: ListHead, nodes: seq<ListHead>): set<ListHead> {
    {head} + set x | x in nodes
  }

  function Without<T>(s: seq<T>, k: nat): seq<T>
    requires k < |s|
  {
    s[..k] + s[k + 1..]
  }

  // ------------------------------------------------------------ rings

  lemma ChainConcat(a: seq<ListHead>, b: seq<ListHead>)
    requires Chain(a) && Chain(b) && (a != [] && b != [] ==> Linked(a[|a| - 1], b[0]))
    ensures Chain(a + b)
  {
    var r := a + b;
    forall i, j | 0 <= i < |r| && 0 <= j < |r| && j == i + 1
      ensures Linked(r[i], r[j])
    {
      if j < |a| {
        assert r[i] == a[i] && r[j] == a[j];
      } else if i >= |a| {
        assert r[i] == b[i - |a|] && r[j] == b[j - |a|];
      }
    }
  }

  lemma ChainSplit(a: seq<ListHead>, b: seq<ListHead>)
    requires Chain(a + b)
    ensures Chain(a) && Chain(b) && (a != [] && b != [] ==> Linked(a[|a| - 1], b[0]))
  {
    var r := a + b;
    assert forall i :: 0 <= i < |a| ==> r[i] == a[i];
    assert forall i :: 0 <= i < |b| ==> r[|a| + i] == b[i];
    forall i, j | 0 <= i < |b| && 0 <= j < |b| && j == i + 1
      ensures Linked(b[i], b[j])
    {
      assert Linked(r[|a| + i], r[|a| + j]);
    }
    if a != [] && b != [] {
      assert Linked(r[|a| - 1], r[|a|]);
    }
  }

  lemma DistinctJoin<T>(a: seq<T>, b: seq<T>)
    requires Distinct(a) && Distinct(b) && forall x :: x in a ==> x !in b
    ensures Distinct(a + b)
  {
    var r := a + b;
    forall i, j | 0 <= i < j < |r|
      ensures r[i] != r[j]
    {
      if i < |a| <= j {
        assert a[i] in a && b[j - |a|] in b;
      }
    }
  }

  lemma DistinctParts<T>(a: seq<T>, b: seq<T>)
    requires Distinct(a + b)
    ensures Distinct(a) && Distinct(b) && forall x :: x in a ==> x !in b
  {
    var r := a + b;
    assert forall i :: 0 <= i < |a| ==> r[i] == a[i];
    forall i, j | 0 <= i < j < |b|
      ensures b[i] != b[j]
    {
      assert r[|a| + i] != r[|a| + j];
    }
    forall x | x in a
      ensures x !in b
    {
      var i :| 0 <= i < |a| && a[i] == x;
      forall j | 0 <= j < |b|
        ensures b[j] != x
      {
        assert r[i] != r[|a| + j];
      }
    }
  }

  /** A list is not a member of itself, and no member occurs twice. */
  lemma HeadApart(head: ListHead, nodes: seq<ListHead>)
    requires IsList(head, nodes)
    ensures head !in nodes && Distinct(nodes)
  {
    DistinctParts([head], nodes);
    assert head in [head];
  }

  /** In every list each node's neighbours belong to it, and next and prev are mutually inverse. */
  lemma LinksInverse(head: ListHead, nodes: seq<ListHead>, x: ListHead)
    requires IsList(head, nodes) && x in Nodes(head, nodes)
    ensures x.next != null && x.prev != null && x.next.prev == x && x.prev.next == x
    ensures x.next in Nodes(head, nodes) && x.prev in Nodes(head, nodes)
  {
    var r := [head] + nodes;
    assert r[0] == head && forall i :: 0 <= i < |nodes| ==> r[i + 1] == nodes[i];
    var i :| 0 <= i < |r| && r[i] == x;
    var after := if i + 1 < |r| then r[i + 1] else r[0];
    var before := if i > 0 then r[i - 1] else r[|r| - 1];
    assert Linked(r[i], after) && Linked(before, r[i]);
    assert forall y :: y in r ==> y in Nodes(head, nodes);
  }

  function After(r: seq<ListHead>, i: nat): ListHead
    requires i < |r|
  {
    if i + 1 < |r| then r[i + 1] else r[0]
  }

  lemma AfterLinked(r: seq<ListHead>, i: nat)
    requires Ring(r) && i < |r|
    ensures Linked(r[i], After(r, i))
  {
  }

  /** The links of a list determine its members. */
  lemma MembersUnique(head: ListHead, a: seq<ListHead>, b: seq<ListHead>)
    requires IsList(head, a) && IsList(head, b)
    ensures a == b
  {
    var r, s := [head] + a, [head] + b;
    var n := if |r| <= |s| then |r| else |s|;
    var i := 0;
    while i + 1 < n
      invariant 0 <= i < n && forall j :: 0 <= j <= i ==> r[j] == s[j]
    {
      assert Linked(r[i], r[i + 1]) && Linked(s[i], s[i + 1]);
      i := i + 1;
    }
    AfterLinked(r, i);
    AfterLinked(s, i);
    assert |r| == |s|;
    assert a == r[1..] && b == s[1..];
  }

  // ------------------------------------------------------------ building blocks

  /** INIT_LIST_HEAD */
  method InitListHead(p: ListHead)
    modifies p
    ensures IsList(p, []) && p.next == p && p.prev == p
  {
    p.next := p;
    p.prev := p;
    assert [p] + [] == [p];
  }

  /** __list_add: `a` ends with prev and `b` starts with next, or is empty and next is the first of `a`. */
  method AddBetween(node: ListHead, prev: ListHead, next: ListHead, ghost a: seq<ListHead>, ghost b: seq<ListHead>)
    requires a != [] && Ring(a + b) && node !in a + b
    requires prev == a[|a| - 1] && next == (a + b + a)[|a|]
    modifies node, prev, next
    ensures Ring(a + [node] + b)
  {
    ChainSplit(a, b);
    DistinctParts(a, b);
    assert (a + b)[0] == a[0] && (a + b)[|a + b| - 1] == if b == [] then a[|a| - 1] else b[|b| - 1];
    next.prev := node;
    node.next := next;
    node.prev := prev;
    prev.next := node;
    ChainConcat(a, [node]);
    ChainConcat(a + [node], b);
    DistinctJoin(a, [node]);
    DistinctJoin(a + [node], b);
  }

  /** __list_del: takes `node` out from between prev, which ends `a`, and next. */
  method DelBetween(prev: ListHead, next: ListHead, ghost a: seq<ListHead>, ghost node: ListHead, ghost b: seq<ListHead>)
    requires a != [] && Ring(a + [node] + b)
    requires prev == a[|a| - 1] && next == (a + b + a)[|a|]
    modifies prev, next
    ensures Ring(a + b)
    ensures node.next == old(node.next) && node.prev == old(node.prev)
  {
    ChainSplit(a + [node], b);
    ChainSplit(a, [node]);
    DistinctParts(a + [node], b);
    DistinctParts(a, [node]);
    DistinctJoin(a, b);
    ghost var r := a + [node] + b;
    assert r[0] == a[0] && r[|r| - 1] == if b == [] then node else b[|b| - 1];
    assert node in a + [node];
    next.prev := prev;
    prev.next := next;
    ChainConcat(a, b);
  }

  // ------------------------------------------------------------ operations

  /** list_add: prepends. */
  method ListAdd(node: ListHead, head: ListHead, ghost nodes: seq<ListHead>)
    requires IsList(head, nodes) && node !in Nodes(head, nodes)
    modifies node, head, head.next
    ensures IsList(head, [node] + nodes)
  {
    LinksInverse(head, nodes, head);
    FirstLast(head, nodes);
    AddBetween(node, head, head.next, [head], nodes);
    assert [head] + [node] + nodes == [head] + ([node] + nodes);
  }

  /** list_add_tail: appends. */
  method ListAddTail(node: ListHead, head: ListHead, ghost nodes: seq<ListHead>)
    requires IsList(head, nodes) && node !in Nodes(head, nodes)
    modifies node, head, head.prev
    ensures IsList(head, nodes + [node])
  {
    LinksInverse(head, nodes, head);
    FirstLast(head, nodes);
    ghost var r := [head] + nodes;
    assert r + [] == r;
    AddBetween(node, head.prev, head, r, []);
    assert r + [node] + [] == [head] + (nodes + [node]);
  }

  /** Where a head points. */
  lemma FirstLast(head: ListHead, nodes: seq<ListHead>)
    requires IsList(head, nodes)
    ensures head.next == if nodes == [] then head else nodes[0]
    ensures head.prev == if nodes == [] then head else nodes[|nodes| - 1]
  {
    var r := [head] + nodes;
    if nodes != [] {
      assert Linked(r[0], r[1]);
    }
  }

  /** Where a member points. */
  lemma Neighbours(head: ListHead, nodes: seq<ListHead>, k: nat)
    requires IsList(head, nodes) && k < |nodes|
    ensures nodes[k].prev == if k == 0 then head else nodes[k - 1]
    ensures nodes[k].next == if k + 1 == |nodes| then head else nodes[k + 1]
  {
    var r := [head] + nodes;
    assert r[0] == head && forall i :: 0 <= i < |nodes| ==> r[i + 1] == nodes[i];
    assert Linked(r[k], r[k + 1]);
    if k + 1 < |nodes| { assert Linked(r[k + 1], r[k + 2]); }
  }

  /** Removing a member removes exactly it. */
  lemma Removed(head: ListHead, nodes: seq<ListHead>, k: nat)
    requires IsList(head, nodes) && k < |nodes|
    ensures nodes[k] in Nodes(head, nodes)
    ensures Nodes(head, Without(nodes, k)) == Nodes(head, nodes) - {nodes[k]}
  {
    HeadApart(head, nodes);
    assert nodes == nodes[..k] + [nodes[k]] + nodes[k + 1..];
    DistinctParts(nodes[..k] + [nodes[k]], nodes[k + 1..]);
    DistinctParts(nodes[..k], [nodes[k]]);
    assert nodes[k] in [nodes[k]] && nodes[k] in nodes[..k] + [nodes[k]];
  }

  /** The part list_del, list_del_init and list_move share. */
  method Unlink(entry: ListHead, ghost head: ListHead, ghost nodes: seq<ListHead>, ghost k: nat)
    requires IsList(head, nodes) && k < |nodes| && nodes[k] == entry
    modifies entry.prev, entry.next
    ensures IsList(head, Without(nodes, k))
    ensures entry.next == old(entry.next) && entry.prev == old(entry.prev)
  {
    Neighbours(head, nodes, k);
    ghost var a, b := [head] + nodes[..k], nodes[k + 1..];
    assert [head] + nodes == a + [entry] + b;
    DelBetween(entry.prev, entry.next, a, entry, b);
    assert a + b == [head] + Without(nodes, k);
  }

  /** list_del */
  method ListDel(entry: ListHead, ghost head: ListHead, ghost nodes: seq<ListHead>, ghost k: nat)
    requires IsList(head, nodes) && k < |nodes| && nodes[k] == entry
    modifies entry, entry.prev, entry.next
    ensures IsList(head, Without(nodes, k))
    ensures entry.next == null && entry.prev == null
  {
    Neighbours(head, nodes, k);
    Removed(head, nodes, k);
    Unlink(entry, head, nodes, k);
    entry.next := null;
    entry.prev := null;
  }

  /** list_del_init: the removed entry becomes an empty list. */
  method ListDelInit(entry: ListHead, ghost head: ListHead, ghost nodes: seq<ListHead>, ghost k: nat)
    requires IsList(head, nodes) && k < |nodes| && nodes[k] == entry
    modifies entry, entry.prev, entry.next
    ensures IsList(head, Without(nodes, k)) && IsList(entry, [])
  {
    Neighbours(head, nodes, k);
    Removed(head, nodes, k);
    Unlink(entry, head, nodes, k);
    InitListHead(entry);
  }

  /** list_move within one list: remove, then prepend. */
  method ListMoveWithin(entry: ListHead, head: ListHead, ghost nodes: seq<ListHead>, ghost k: nat)
    requires IsList(head, nodes) && k < |nodes| && nodes[k] == entry
    modifies entry, entry.prev, entry.next, head, head.next
    ensures IsList(head, [entry] + Without(nodes, k))
  {
    Neighbours(head, nodes, k);
    Removed(head, nodes, k);
    FirstLast(head, nodes);
    Unlink(entry, head, nodes, k);
    FirstLast(head, Without(nodes, k));
    ListAdd(entry, head, Without(nodes, k));
  }

  /** list_move_tail within one list: remove, then append. */
  method ListMoveTailWithin(entry: ListHead, head: ListHead, ghost nodes: seq<ListHead>, ghost k: nat)
    requires IsList(head, nodes) && k < |nodes| && nodes[k] == entry
    modifies entry, entry.prev, entry.next, head, head.prev
    ensures IsList(head, Without(nodes, k) + [entry])
  {
    Neighbours(head, nodes, k);
    Removed(head, nodes, k);
    FirstLast(head, nodes);
    Unlink(entry, head, nodes, k);
    FirstLast(head, Without(nodes, k));
    ListAddTail(entry, head, Without(nodes, k));
  }

  /** list_move from one list to the front of another. */
  method ListMove(entry: ListHead, ghost from: ListHead, ghost source: seq<ListHead>, ghost k: nat,
                  head: ListHead, ghost nodes: seq<ListHead>)
    requires IsList(from, source) && k < |source| && source[k] == entry
    requires IsList(head, nodes) && Nodes(from, source) !! Nodes(head, nodes)
    modifies entry, entry.prev, entry.next, head, head.next
    ensures IsList(from, Without(source, k)) && IsList(head, [entry] + nodes)
  {
    Neighbours(from, source, k);
    Removed(from, source, k);
    LinksInverse(from, source, entry);
    LinksInverse(head, nodes, head);
    Unlink(entry, from, source, k);
    ListAdd(entry, head, nodes);
  }

  /** list_move_tail from one list to the back of another. */
  method ListMoveTail(entry: ListHead, ghost from: ListHead, ghost source: seq<ListHead>, ghost k: nat,
                      head: ListHead, ghost nodes: seq<ListHead>)
    requires IsList(from, source) && k < |source| && source[k] == entry
    requires IsList(head, nodes) && Nodes(from, source) !! Nodes(head, nodes)
    modifies entry, entry.prev, entry.next, head, head.prev
    ensures IsList(from, Without(source, k)) && IsList(head, nodes + [entry])
  {
    Neighbours(from, source, k);
    Removed(from, source, k);
    LinksInverse(from, source, entry);
    LinksInverse(head, nodes, head);
    Unlink(entry, from, source, k);
    ListAddTail(entry, head, nodes);
  }

  /** list_empty */
  method ListEmpty(head: ListHead, ghost nodes: seq<ListHead>) returns (empty: bool)
    requires IsList(head, nodes)
    ensures empty <==> nodes == []
  {
    FirstLast(head, nodes);
    HeadApart(head, nodes);
    empty := head.next == head;
  }

  /** __list_splice of a non-empty list: its members go to the front; its head keeps its old links. */
  method SpliceMembers(list: ListHead, head: ListHead, ghost added: seq<ListHead>, ghost nodes: seq<ListHead>)
    requires IsList(list, added) && added != [] && IsList(head, nodes) && Nodes(list, added) !! Nodes(head, nodes)
    modifies list.next, list.prev, head, head.next
    ensures IsList(head, added + nodes)
    ensures list.next == old(list.next) && list.prev == old(list.prev)
  {
    FirstLast(list, added);
    FirstLast(head, nodes);
    ChainSplit([list], added);
    ChainSplit([head], nodes);
    HeadApart(list, added);
    HeadApart(head, nodes);
    ghost var h := [head] + nodes;
    assert h[|h| - 1] == if nodes == [] then head else nodes[|nodes| - 1];
    var first, last, at := list.next, list.prev, head.next;
    first.prev := head;
    head.next := first;
    last.next := at;
    at.prev := last;
    assert Chain(added) && Chain(nodes);
    ChainConcat([head], added);
    ChainConcat([head] + added, nodes);
    DistinctJoin([head], added);
    forall x | x in [head] + added
      ensures x !in nodes
    {
      assert x == head || x in Nodes(list, added);
    }
    DistinctJoin([head] + added, nodes);
    assert [head] + added + nodes == [head] + (added + nodes);
  }

  /** list_splice: prepends a list's members; the emptied list's head is left dangling. */
  method ListSplice(list: ListHead, head: ListHead, ghost added: seq<ListHead>, ghost nodes: seq<ListHead>)
    requires IsList(list, added) && IsList(head, nodes) && Nodes(list, added) !! Nodes(head, nodes)
    modifies list.next, list.prev, head, head.next
    ensures IsList(head, added + nodes)
    ensures list.next == old(list.next) && list.prev == old(list.prev)
  {
    var empty := ListEmpty(list, added);
    if !empty {
      SpliceMembers(list, head, added, nodes);
    } else {
      assert added + nodes == nodes;
    }
  }

  /** list_splice_init: the emptied list becomes a proper empty list. */
  method ListSpliceInit(list: ListHead, head: ListHead, ghost added: seq<ListHead>, ghost nodes: seq<ListHead>)
    requires IsList(list, added) && IsList(head, nodes) && Nodes(list, added) !! Nodes(head, nodes)
    modifies list, list.next, list.prev, head, head.next
    ensures IsList(head, added + nodes) && IsList(list, [])
  {
    HeadApart(list, added);
    assert list in Nodes(list, added);
    var empty := ListEmpty(list, added);
    if !empty {
      SpliceMembers(list, head, added, nodes);
      assert list !in added && list !in nodes && list != head;
      InitListHead(list);
    } else {
      assert added + nodes == nodes && [list] + added == [list] + [];
    }
  }

  // ------------------------------------------------------------ iteration

  /** The members not in `doomed`, in order. */
  ghost function Keep(nodes: seq<ListHead>, doomed: set<ListHead>): seq<ListHead> {
    if nodes == [] then []
    else
      var last := nodes[|nodes| - 1];
      Keep(nodes[..|nodes| - 1], doomed) + if last in doomed then [] else [last]
  }

  lemma KeepNext(nodes: seq<ListHead>, doomed: set<ListHead>, i: nat)
    requires i < |nodes|
    ensures Keep(nodes[..i + 1], doomed) == Keep(nodes[..i], doomed) + if nodes[i] in doomed then [] else [nodes[i]]
  {
    assert nodes[..i + 1][..i] == nodes[..i];
  }

  lemma {:induction false} KeepWithin(nodes: seq<ListHead>, doomed: set<ListHead>)
    ensures forall x :: x in Keep(nodes, doomed) ==> x in nodes && x !in doomed
  {
    if nodes == [] {
    } else {
      KeepWithin(nodes[..|nodes| - 1], doomed);
    }
  }

  /** The list while the loop stands before member i. */
  ghost function Remaining(nodes: seq<ListHead>, doomed: set<ListHead>, i: nat): seq<ListHead>
    requires i <= |nodes|
  {
    Keep(nodes[..i], doomed) + nodes[i..]
  }

  /** The removed ones among the first i members have null links. */
  ghost predicate Cleared(nodes: seq<ListHead>, doomed: set<ListHead>, i: nat)
    requires i <= |nodes|
    reads nodes
  {
    forall j :: 0 <= j < i && nodes[j] in doomed ==> nodes[j].next == null && nodes[j].prev == null
  }

  /** The body of the loop at member i: the entry is visited, and removed when it is doomed. */
  method VisitEntry(pos: ListHead, head: ListHead, doomed: set<ListHead>, ghost nodes: seq<ListHead>, ghost i: nat)
    requires i < |nodes| && pos == nodes[i] && Distinct(nodes) && head !in nodes
    requires IsList(head, Remaining(nodes, doomed, i)) && Cleared(nodes, doomed, i)
    modifies head, nodes
    ensures IsList(head, Remaining(nodes, doomed, i + 1)) && Cleared(nodes, doomed, i + 1)
  {
    if pos in doomed {
      RemoveEntry(pos, head, doomed, nodes, i);
    } else {
      RemainingStep(nodes, doomed, i);
    }
  }

  method RemoveEntry(pos: ListHead, head: ListHead, doomed: set<ListHead>, ghost nodes: seq<ListHead>, ghost i: nat)
    requires i < |nodes| && pos == nodes[i] && Distinct(nodes) && head !in nodes && pos in doomed
    requires IsList(head, Remaining(nodes, doomed, i)) && Cleared(nodes, doomed, i)
    modifies head, nodes
    ensures IsList(head, Remaining(nodes, doomed, i + 1)) && Cleared(nodes, doomed, i + 1)
  {
    hide Ring, Keep, Remaining;
    ghost var k := |Keep(nodes[..i], doomed)|;
    ghost var now := Remaining(nodes, doomed, i);
    RemainingStep(nodes, doomed, i);
    StillOutside(head, doomed, nodes, i);
    assert pos in Nodes(head, now) by { assert now[k] == pos; }
    LinksInverse(head, now, pos);
    assert forall j :: 0 <= j < i ==> nodes[j] in nodes[..i];
    ListDel(pos, head, now, k);
  }

  /** Member i is where the unvisited rest begins; taking it out is what removing it means. */
  lemma RemainingStep(nodes: seq<ListHead>, doomed: set<ListHead>, i: nat)
    requires i < |nodes|
    ensures var k, now := |Keep(nodes[..i], doomed)|, Remaining(nodes, doomed, i);
            && k < |now| && now[k] == nodes[i]
            && Remaining(nodes, doomed, i + 1) == if nodes[i] in doomed then Without(now, k) else now
  {
    KeepNext(nodes, doomed, i);
    assert nodes[i..] == [nodes[i]] + nodes[i + 1..];
  }

  /** Before member i the list holds no removed member and nothing foreign. */
  lemma StillOutside(head: ListHead, doomed: set<ListHead>, nodes: seq<ListHead>, i: nat)
    requires i < |nodes| && Distinct(nodes) && head !in nodes
    ensures Nodes(head, Remaining(nodes, doomed, i)) <= Nodes(head, nodes)
    ensures forall x :: x in nodes[..i] && x in doomed ==> x !in Nodes(head, Remaining(nodes, doomed, i))
  {
    KeepWithin(nodes[..i], doomed);
    assert nodes == nodes[..i] + nodes[i..];
    DistinctParts(nodes[..i], nodes[i..]);
  }

  /** list_for_each_safe with a body that removes the entries in `doomed`: every original member is visited
      once, in order, and the list that remains is the members that were not removed. */
  method ForEachSafe(head: ListHead, doomed: set<ListHead>, ghost nodes: seq<ListHead>) returns (visited: seq<ListHead>)
    requires IsList(head, nodes)
    modifies head, nodes
    ensures visited == nodes
    ensures IsList(head, Keep(nodes, doomed))
    ensures forall x :: x in nodes && x in doomed ==> x.next == null && x.prev == null
  {
    hide Ring, Keep, Remaining;
    visited := [];
    ghost var i := 0;
    HeadApart(head, nodes);
    RemainingEnds(nodes, doomed);
    FirstLast(head, nodes);
    var pos := head.next;
    var n := NextOf(pos, head, doomed, nodes, 0);
    while pos != head
      invariant 0 <= i <= |nodes| && visited == nodes[..i]
      invariant IsList(head, Remaining(nodes, doomed, i)) && Cleared(nodes, doomed, i)
      invariant pos == Member(head, nodes, i) && (i < |nodes| ==> n == Member(head, nodes, i + 1))
      decreases |nodes| - i
    {
      visited := visited + [pos];
      VisitEntry(pos, head, doomed, nodes, i);
      i := i + 1;
      pos := n;
      n := NextOf(pos, head, doomed, nodes, i);
    }
    assert nodes[..|nodes|] == nodes;
  }

  lemma RemainingEnds(nodes: seq<ListHead>, doomed: set<ListHead>)
    ensures Remaining(nodes, doomed, 0) == nodes
    ensures Remaining(nodes, doomed, |nodes|) == Keep(nodes, doomed)
  {
    assert nodes[..|nodes|] == nodes;
  }

  /** The i-th member, or the head after the last. */
  function Member(head: ListHead, nodes: seq<ListHead>, i: nat): ListHead {
    if i < |nodes| then nodes[i] else head
  }

  /** n = pos->next */
  method NextOf(pos: ListHead, head: ListHead, ghost doomed: set<ListHead>, ghost nodes: seq<ListHead>, ghost i: nat)
    returns (n: ListHead)
    requires i <= |nodes| && IsList(head, Remaining(nodes, doomed, i))
    requires pos == Member(head, nodes, i)
    ensures i < |nodes| ==> n == Member(head, nodes, i + 1)
    ensures IsList(head, Remaining(nodes, doomed, i))
  {
    ghost var kept, now := Keep(nodes[..i], doomed), Remaining(nodes, doomed, i);
    if i < |nodes| {
      assert now[|kept|] == pos;
      Neighbours(head, now, |kept|);
    } else {
      LinksInverse(head, now, head);
    }
    n := pos.next;
  }
}
