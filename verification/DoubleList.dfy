/** The intrusive circular doubly linked list of `utils/list`.

    A list is a ring of nodes whose first element is the head.  The ghost argument `r`
    of each operation is the ring it works on; the list's members are `r[1..]`. */
module DoubleList {

  class Node {
    var prev: Node?
    var next: Node?

    constructor ()
      ensures prev == null && next == null
    {
      prev, next := null, null;
    }
  }

  /** Nodes `i` and `i + 1` (cyclically) of `r` point at each other. */
  ghost predicate LinkAt(r: seq<Node>, i: nat)
    requires i < |r|
    reads r
  {
    var succ := r[if i + 1 < |r| then i + 1 else 0];
    r[i].next == succ && succ.prev == r[i]
  }

  ghost predicate LinksBelow(r: seq<Node>, n: nat)
    requires n <= |r|
    reads r
  {
    n == 0 || (LinksBelow(r, n - 1) && LinkAt(r, n - 1))
  }

  /** `r` lists, in `next` order, all nodes of one closed ring, each once (see RingDistinct). */
  ghost predicate Ring(r: seq<Node>)
    reads r
  {
    |r| > 0 && r[0] !in r[1..] && LinksBelow(r, |r|)
  }

  lemma {:induction false} LinksBelowAt(r: seq<Node>, n: nat, i: nat)
    requires i < n <= |r| && LinksBelow(r, n)
    ensures LinkAt(r, i)
  {
    if i < n - 1 {
      LinksBelowAt(r, n - 1, i);
    }
  }

  lemma RingLinks(r: seq<Node>)
    requires Ring(r)
    ensures forall i :: 0 <= i < |r| ==> LinkAt(r, i)
  {
    forall i | 0 <= i < |r|
      ensures LinkAt(r, i)
    {
      LinksBelowAt(r, |r|, i);
    }
  }

  lemma {:induction false} RingFromLinks(r: seq<Node>, n: nat)
    requires n <= |r| && forall i :: 0 <= i < |r| ==> LinkAt(r, i)
    ensures LinksBelow(r, n)
  {
    if n > 0 {
      RingFromLinks(r, n - 1);
    }
  }

  lemma {:induction false} RingDiffers(r: seq<Node>, i: nat, j: nat)
    requires Ring(r) && i < j < |r|
    ensures r[i] != r[j]
  {
    if i == 0 {
      assert r[j] == r[1..][j - 1];
    } else if r[i] == r[j] {
      RingLinks(r);
      assert LinkAt(r, i - 1) && LinkAt(r, j - 1);
      RingDiffers(r, i - 1, j - 1);
    }
  }

  lemma RingDistinct(r: seq<Node>)
    requires Ring(r)
    ensures forall i, j :: 0 <= i < j < |r| ==> r[i] != r[j]
  {
    forall i, j | 0 <= i < j < |r|
      ensures r[i] != r[j]
    {
      RingDiffers(r, i, j);
    }
  }

  lemma NextInRing(r: seq<Node>, k: nat)
    requires Ring(r) && k < |r|
    ensures r[k].next == if k + 1 < |r| then r[k + 1] else r[0]
    ensures r[k].prev == if k > 0 then r[k - 1] else r[|r| - 1]
  {
    RingLinks(r);
    assert LinkAt(r, k) && LinkAt(r, if k > 0 then k - 1 else |r| - 1);
  }

  ghost predicate Detached(n: Node)
    reads n
  {
    n.prev == null && n.next == null
  }

  ghost predicate AllDetached(s: set<Node>)
    reads s
  {
    forall n :: n in s ==> Detached(n)
  }

  /** A head that may be used: the first node of the ring `r`, or a zeroed head (no list yet). */
  ghost predicate UsableHead(head: Node, r: seq<Node>)
    reads r, head
  {
    |r| > 0 && r[0] == head && (Ring(r) || (r == [head] && Detached(head)))
  }

  /** The ring `q` shares no node with the ring `r` and does not hold `node`. */
  ghost predicate Apart(q: seq<Node>, r: seq<Node>, node: Node?) {
    forall n :: n in q ==> n !in r && n != node
  }

  ghost function NextOf(n: Node?): Node?
    reads n
  {
    if n == null then null else n.next
  }

  ghost function PrevOf(n: Node?): Node?
    reads n
  {
    if n == null then null else n.prev
  }

  twostate lemma RingKept(q: seq<Node>)
    requires old(Ring(q))
    requires forall n :: n in q ==> unchanged(n)
    ensures Ring(q)
  {
    var i: nat := |q|;
    while i > 0
      invariant i <= |q| && old(LinksBelow(q, i))
      invariant forall j :: i <= j < |q| ==> LinkAt(q, j)
    {
      i := i - 1;
      assert old(LinkAt(q, i));
      assert q[i] in q && q[if i + 1 < |q| then i + 1 else 0] in q;
    }
    RingFromLinks(q, |q|);
  }

  method InitializeDoubleList(node: Node?)
    modifies node
    ensures node != null ==> Ring([node])
  {
    if node == null {
      return;
    }
    node.prev := node;
    node.next := node;
    assert LinkAt([node], 0);
    RingFromLinks([node], 1);
  }

  /** Prepends `node` to the members of the ring; a zeroed head counts as empty. */
  method AddNodeAfterDoubleListHead(head: Node?, node: Node?, ghost r: seq<Node>)
    requires head != null && node != null ==> UsableHead(head, r) && node !in r
    modifies head, node, NextOf(head)
    ensures head != null && node != null ==> Ring([head, node] + r[1..])
    ensures head == null || node == null ==>
              forall n: Node :: old(allocated(n)) ==> n.next == old(n.next) && n.prev == old(n.prev)
    ensures forall q: seq<Node> :: old(allocated(q)) && Apart(q, r, node) && old(Ring(q)) ==> Ring(q)
  {
    if head == null || node == null {
      return;
    }
    if Ring(r) {
      RingDistinct(r);
      RingLinks(r);
      assert LinkAt(r, 0);
    }
    if head.next == null {
      head.next := head;
    }
    head.next.prev := node;
    node.next := head.next;
    node.prev := head;
    head.next := node;
    forall q: seq<Node> | old(allocated(q)) && Apart(q, r, node) && old(Ring(q))
      ensures Ring(q)
    {
      RingKept(q);
    }
    ghost var ring := [head, node] + r[1..];
    forall i | 0 <= i < |ring|
      ensures LinkAt(ring, i)
    {
      if i >= 1 && old(Ring(r)) {
        assert old(LinkAt(r, i - 1));
      }
    }
    RingFromLinks(ring, |ring|);
  }

  /** Appends `node` to the members of the ring; a zeroed head counts as empty. */
  method AddNodeAtDoubleListTail(head: Node?, node: Node?, ghost r: seq<Node>)
    requires head != null && node != null ==> UsableHead(head, r) && node !in r
    modifies head, node, PrevOf(head)
    ensures head != null && node != null ==> Ring(r + [node])
    ensures head == null || node == null ==>
              forall n: Node :: old(allocated(n)) ==> n.next == old(n.next) && n.prev == old(n.prev)
    ensures forall q: seq<Node> :: old(allocated(q)) && Apart(q, r, node) && old(Ring(q)) ==> Ring(q)
  {
    if head == null || node == null {
      return;
    }
    if Ring(r) {
      RingDistinct(r);
      RingLinks(r);
      assert LinkAt(r, |r| - 1);
    }
    if head.prev == null {
      head.prev := head;
    }
    head.prev.next := node;
    node.next := head;
    node.prev := head.prev;
    head.prev := node;
    forall q: seq<Node> | old(allocated(q)) && Apart(q, r, node) && old(Ring(q))
      ensures Ring(q)
    {
      RingKept(q);
    }
    ghost var ring := r + [node];
    forall i | 0 <= i < |ring|
      ensures LinkAt(ring, i)
    {
      if i < |r| && old(Ring(r)) {
        assert old(LinkAt(r, i));
      }
    }
    RingFromLinks(ring, |ring|);
  }

  /** Takes node `r[k]` out of its ring and zeroes it; a node in no ring stays zeroed. */
  method RemoveDoubleListNode(node: Node?, ghost r: seq<Node>, ghost k: nat)
    requires node != null && !Detached(node) ==> Ring(r) && k < |r| && r[k] == node
    modifies node, PrevOf(node), NextOf(node)
    ensures node != null ==> Detached(node)
    ensures node != null && old(!Detached(node)) && |r| > 1 ==> Ring(r[..k] + r[k + 1..])
    ensures forall q: seq<Node> :: old(allocated(q)) && Apart(q, r, node) && old(Ring(q)) ==> Ring(q)
  {
    if node == null {
      return;
    }
    if !Detached(node) {
      RingDistinct(r);
      NextInRing(r, k);
      RingLinks(r);
    }
    if node.next != null {
      node.next.prev := node.prev;
    }
    if node.prev != null {
      node.prev.next := node.next;
    }
    node.prev := null;
    node.next := null;
    forall q: seq<Node> | old(allocated(q)) && Apart(q, r, node) && old(Ring(q))
      ensures Ring(q)
    {
      RingKept(q);
    }
    if old(!Detached(node)) && |r| > 1 {
      ghost var ring := r[..k] + r[k + 1..];
      forall i | 0 <= i < |ring|
        ensures LinkAt(ring, i)
      {
        assert old(LinkAt(r, i)) && old(LinkAt(r, i + 1));
      }
      RingFromLinks(ring, |ring|);
    }
  }

  /** The members of `s` outside `drop`, in order. */
  ghost function Keep(s: seq<Node>, drop: set<Node>): (t: seq<Node>)
    ensures forall x :: x in t ==> x in s && x !in drop
  {
    if s == [] then []
    else
      var last := s[|s| - 1];
      var front := Keep(s[..|s| - 1], drop);
      if last in drop then front else front + [last]
  }

  /** The loop variable of an iteration that has seen `r[1..i]`. */
  ghost predicate OnTrack(p: Node?, r: seq<Node>, i: nat)
    requires 1 <= i <= |r|
    reads r
  {
    if Detached(r[0]) then p == null && i == |r|
    else Ring(r) && p == if i < |r| then r[i] else r[0]
  }

  /** HKS_DLIST_ITER with a body that only looks at the current node. */
  method Iterate(head: Node?, ghost r: seq<Node>) returns (visited: seq<Node>)
    requires head != null ==> UsableHead(head, r)
    ensures head == null ==> visited == []
    ensures head != null ==> visited == r[1..]
  {
    visited := [];
    var p: Node? := null;
    if head != null {
      if Ring(r) {
        NextInRing(r, 0);
      }
      p := head.next;
    }
    ghost var i := 1;
    while p != null && p != head
      invariant head != null ==> 1 <= i <= |r| && visited == r[1..i] && OnTrack(p, r, i)
      invariant head == null ==> p == null && visited == []
      decreases |r| - i
    {
      visited := visited + [p];
      NextInRing(r, i);
      p := p.next;
      i := i + 1;
    }
  }

  /** How the ring `[head] + kept + rest` changes when its node `rest[0]` is kept or taken out. */
  lemma StepSplit(head: Node, kept: seq<Node>, rest: seq<Node>)
    requires rest != []
    ensures var r, k := [head] + kept + rest, 1 + |kept|;
            && r[k] == rest[0] && r[k - 1] == ([head] + kept)[|kept|]
            && (k + 1 < |r| <==> |rest| > 1) && (|rest| > 1 ==> r[k + 1] == rest[1])
            && r[..k] + r[k + 1..] == [head] + kept + rest[1..]
            && r == [head] + (kept + [rest[0]]) + rest[1..]
  {
    var r, k := [head] + kept + rest, 1 + |kept|;
    assert r[k..] == rest;
    assert r[k + 1..] == rest[1..];
  }

  lemma RingHoldsNoDetached(r: seq<Node>, gone: set<Node>)
    requires Ring(r) && AllDetached(gone)
    ensures forall n :: n in gone ==> n !in r
  {
    forall j | 0 <= j < |r|
      ensures !Detached(r[j])
    {
      NextInRing(r, j);
    }
  }

  /** A loop that has seen `visited`, kept `kept` and still has `rest` to see of the ring `r`. */
  ghost predicate Midway(r: seq<Node>, drop: set<Node>, visited: seq<Node>, kept: seq<Node>, rest: seq<Node>) {
    |r| > 0 && r[1..] == visited + rest && kept == Keep(visited, drop)
  }

  lemma MidwayStep(r: seq<Node>, drop: set<Node>, visited: seq<Node>, kept: seq<Node>, rest: seq<Node>)
    requires Midway(r, drop, visited, kept, rest) && rest != []
    ensures Midway(r, drop, visited + [rest[0]], if rest[0] in drop then kept else kept + [rest[0]], rest[1..])
  {
    assert (visited + [rest[0]])[..|visited|] == visited;
    assert (visited + [rest[0]]) + rest[1..] == visited + rest;
  }

  lemma CurrentNode(r: seq<Node>, drop: set<Node>, visited: seq<Node>, kept: seq<Node>, rest: seq<Node>)
    requires Midway(r, drop, visited, kept, rest) && rest != [] && Ring([r[0]] + kept + rest)
    ensures rest[0].next == if |rest| > 1 then rest[1] else r[0]
    ensures rest[0] in r && rest[0].prev in r && rest[0].next in r && rest[0] != r[0]
  {
    StepSplit(r[0], kept, rest);
    NextInRing([r[0]] + kept + rest, 1 + |kept|);
    RingDiffers([r[0]] + kept + rest, 0, 1 + |kept|);
    assert r == [r[0]] + (visited + rest);
  }

  /** The removing body of the loops below, run on the node `p == rest[0]` of the ring
      `[head] + kept + rest`; `gone` are nodes taken out earlier. */
  method RemoveIfDropped(p: Node, drop: set<Node>,
                         ghost head: Node, ghost kept: seq<Node>, ghost rest: seq<Node>, ghost gone: set<Node>)
    returns (ghost kept': seq<Node>, ghost gone': set<Node>)
    requires rest != [] && p == rest[0] && Ring([head] + kept + rest)
    requires AllDetached(gone)
    modifies p, PrevOf(p), NextOf(p)
    ensures kept' == if p in drop then kept else kept + [p]
    ensures gone' == if p in drop then gone + {p} else gone
    ensures Ring([head] + kept' + rest[1..]) && AllDetached(gone')
    ensures if p in drop then p.next == null else p.next == old(p.next)
  {
    ghost var r, k := [head] + kept + rest, 1 + |kept|;
    StepSplit(head, kept, rest);
    NextInRing(r, k);
    RingHoldsNoDetached(r, gone);
    kept', gone' := kept + [p], gone;
    if p in drop {
      RemoveDoubleListNode(p, r, k);
      kept', gone' := kept, gone + {p};
    }
  }

  /** HKS_DLIST_SAFT_ITER with a body that takes the current node out when it is in `drop`.  The
      macro reads through the head, and copies the node behind it, before it tests anything:
      `nullRead` says that one of the two is NULL. */
  method IterateSafely(head: Node?, ghost r: seq<Node>, drop: set<Node>) returns (visited: seq<Node>, nullRead: bool)
    requires head != null ==> UsableHead(head, r) && head !in drop
    modifies r
    ensures nullRead <==> head == null || old(Detached(head))
    ensures nullRead ==> visited == [] && forall n :: n in r ==> unchanged(n)
    ensures !nullRead ==> visited == r[1..]
    ensures !nullRead ==> Ring([head] + Keep(r[1..], drop))
    ensures !nullRead ==> forall n :: n in r && n in drop ==> Detached(n)
  {
    visited := [];
    if Ring(r) {
      NextInRing(r, 0);
    }
    if head == null || head.next == null {
      return [], true;
    }
    nullRead := false;
    var p: Node := head.next;
    var tmpNext := p.next;
    ghost var kept, rest := [], r[1..];
    ghost var gone: set<Node> := {};
    assert [head] + kept + rest == r;
    while p != head
      invariant Midway(r, drop, visited, kept, rest) && Ring([head] + kept + rest)
      invariant p == if rest != [] then rest[0] else head
      invariant tmpNext == p.next
      invariant AllDetached(gone) && forall n :: n in visited && n in drop ==> n in gone
      decreases |rest|
    {
      CurrentNode(r, drop, visited, kept, rest);
      MidwayStep(r, drop, visited, kept, rest);
      kept, gone := RemoveIfDropped(p, drop, head, kept, rest, gone);
      visited, rest := visited + [p], rest[1..];
      p := tmpNext;
      tmpNext := p.next;
    }
    if rest != [] {
      CurrentNode(r, drop, visited, kept, rest);
    }
    assert visited == r[1..] && [head] + kept + rest == [head] + kept;
  }

  /** A visit that ends with the first node of `drop`, if it leaves anything unvisited. */
  ghost predicate EndsAtFirst(visited: seq<Node>, rest: seq<Node>, drop: set<Node>) {
    && (forall j :: 0 <= j < |visited| - 1 ==> visited[j] !in drop)
    && (rest != [] ==> visited != [] && visited[|visited| - 1] in drop)
  }

  /** HKS_DLIST_ITER with the same removing body: the step reads the zeroed `next` of the node
      just taken out, so the loop ends with the first removal and leaves `rest` unvisited. */
  method IterateRemovingPlainly(head: Node, ghost r: seq<Node>, drop: set<Node>)
    returns (visited: seq<Node>, ghost rest: seq<Node>)
    requires Ring(r) && r[0] == head && head !in drop
    modifies r
    ensures r[1..] == visited + rest
    ensures Ring([head] + Keep(visited, drop) + rest)
    ensures visited == r[1..] <==> forall j :: 1 <= j < |r| - 1 ==> r[j] !in drop
    ensures EndsAtFirst(visited, rest, drop)
  {
    visited, rest := [], r[1..];
    NextInRing(r, 0);
    var p := head.next;
    ghost var kept: seq<Node>, taken: seq<Node>, gone: set<Node> := [], [], {};
    assert [head] + kept + rest == r;
    while p != null && p != head
      invariant Midway(r, drop, visited, kept, rest) && Ring([head] + kept + rest)
      invariant p == null ==> |taken| == 1 && taken[0] in drop && visited == kept + taken
      invariant p != null ==> taken == [] && visited == kept && p == if rest != [] then rest[0] else head
      decreases p != null, |rest|
    {
      var q: Node := p;
      CurrentNode(r, drop, visited, kept, rest);
      MidwayStep(r, drop, visited, kept, rest);
      kept, gone := RemoveIfDropped(q, drop, head, kept, rest, {});
      visited, rest, taken := visited + [q], rest[1..], if q in drop then [q] else [];
      p := q.next;
    }
    if p != null && rest != [] {
      CurrentNode(r, drop, visited, kept, rest);
    }
    assert kept + [] == kept;
    PlainVisitsAllIff(r, drop, visited, kept, rest, taken);
  }

  /** The plain loop with a removing body visits every member exactly when no member but
      possibly the last is to be removed. */
  lemma PlainVisitsAllIff(r: seq<Node>, drop: set<Node>,
                          visited: seq<Node>, kept: seq<Node>, rest: seq<Node>, taken: seq<Node>)
    requires Midway(r, drop, visited, kept, rest) && visited == kept + taken
    requires if taken == [] then rest == [] else |taken| == 1 && taken[0] in drop
    ensures visited == r[1..] <==> forall j :: 1 <= j < |r| - 1 ==> r[j] !in drop
    ensures EndsAtFirst(visited, rest, drop)
  {
    assert forall j :: 0 <= j < |kept| ==> visited[j] == kept[j] && kept[j] in kept;
    assert forall j :: 1 <= j < |r| ==> r[j] == (kept + taken + rest)[j - 1];
    if rest != [] {
      assert r[|visited|] in drop;
    } else {
      assert forall j :: 1 <= j < |r| - 1 ==> r[j] == kept[j - 1] && kept[j - 1] in kept;
    }
  }

  /** A list with two members. */
  method TwoMembers() returns (r: seq<Node>)
    ensures |r| == 3 && Ring(r) && fresh(r)
  {
    var head := new Node();
    InitializeDoubleList(head);
    var first := new Node();
    AddNodeAtDoubleListTail(head, first, [head]);
    var second := new Node();
    AddNodeAtDoubleListTail(head, second, [head] + [first]);
    r := [head] + [first] + [second];
  }

  /** If the first of two members is to be removed, a visit that ends with the first removal has
      seen that member only. */
  lemma FirstOfTwo(a: Node, b: Node, visited: seq<Node>, rest: seq<Node>)
    requires [a, b] == visited + rest
    requires EndsAtFirst(visited, rest, {a})
    ensures visited == [a]
  {
    assert visited != [] ==> visited[0] == (visited + rest)[0];
  }

  /** So the plain loop does not get to the second of two members. */
  method PlainIterationStopsShort() returns (members: seq<Node>, visited: seq<Node>)
    ensures |members| == 2 && members[0] != members[1] && visited == [members[0]]
  {
    var r := TwoMembers();
    members := r[1..];
    RingDistinct(r);
    ghost var rest;
    visited, rest := IterateRemovingPlainly(r[0], r, {r[1]});
    assert members == [r[1], r[2]];
    FirstOfTwo(r[1], r[2], visited, rest);
  }

  // ----- The same in indices -----

  /** A ring: every node occurs once, neighbours point at each other, and so do the last node and
      the first. */
  lemma RingIff(r: seq<Node>)
    ensures Ring(r) <==>
            && |r| > 0 && (forall i, j :: 0 <= i < j < |r| ==> r[i] != r[j])
            && (forall k :: 0 <= k < |r| - 1 ==> r[k].next == r[k + 1] && r[k + 1].prev == r[k])
            && r[|r| - 1].next == r[0] && r[0].prev == r[|r| - 1]
  {
    if Ring(r) {
      RingDistinct(r);
      forall k | 0 <= k < |r|
        ensures LinkAt(r, k)
      {
        LinksBelowAt(r, |r|, k);
      }
      forall k | 0 <= k < |r| - 1
        ensures r[k].next == r[k + 1] && r[k + 1].prev == r[k]
      {
        assert LinkAt(r, k);
      }
      assert LinkAt(r, |r| - 1);
    }
    if && |r| > 0 && (forall i, j :: 0 <= i < j < |r| ==> r[i] != r[j])
       && (forall k :: 0 <= k < |r| - 1 ==> r[k].next == r[k + 1] && r[k + 1].prev == r[k])
       && r[|r| - 1].next == r[0] && r[0].prev == r[|r| - 1] {
      RingFromLinks(r, |r|);
      assert forall i :: 0 <= i < |r| - 1 ==> r[1..][i] == r[i + 1];
    }
  }

  /** The heads the operations take, and nodes and rings that do not touch. */
  lemma HeadsPlainly(head: Node, r: seq<Node>, q: seq<Node>, node: Node?)
    ensures Detached(head) <==> head.prev == null && head.next == null
    ensures UsableHead(head, r) <==>
            |r| > 0 && r[0] == head && (Ring(r) || (|r| == 1 && head.prev == null && head.next == null))
    ensures Apart(q, r, node) <==> forall n :: n in q ==> n !in r && n != node
  {
    assert |r| == 1 && r[0] == head ==> r == [head];
  }

  /** What is kept, node by node. */
  lemma KeepPlainly(s: seq<Node>, n: Node, drop: set<Node>)
    ensures Keep([], drop) == [] && Keep(s + [n], drop) == Keep(s, drop) + if n in drop then [] else [n]
  {
    assert (s + [n])[..|s|] == s;
  }
}
