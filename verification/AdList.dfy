/** The doubly linked list: nodes on the heap with links both ways, a head, a tail and a length. */
module AdList {

  class ListNode<T> {
    var prev: ListNode?<T>
    var next: ListNode?<T>
    var value: T

    /** listInitNode. */
    constructor (v: T)
      ensures prev == null && next == null && value == v
    {
      prev, next, value := null, null, v;
    }
  }

  datatype Direction = FromHead | FromTail

  /** The node at position `i` is linked to its neighbours, or to null at the ends. */
  ghost predicate Linked<T>(nodes: seq<ListNode<T>>, i: int)
    requires 0 <= i < |nodes|
    reads nodes
  {
    && nodes[i].prev == (if i == 0 then null else nodes[i - 1])
    && nodes[i].next == (if i == |nodes| - 1 then null else nodes[i + 1])
  }

  ghost function Values<T>(nodes: seq<ListNode<T>>): (s: seq<T>)
    reads nodes
    ensures |s| == |nodes| && forall i :: 0 <= i < |nodes| ==> s[i] == nodes[i].value
  {
    seq(|nodes|, i requires 0 <= i < |nodes| reads nodes => nodes[i].value)
  }

  ghost predicate Distinct<T>(nodes: seq<ListNode<T>>) {
    forall i, j :: 0 <= i < j < |nodes| ==> nodes[i] != nodes[j]
  }

  /** The nodes form one chain, linked both ways. */
  ghost predicate Chain<T>(nodes: seq<ListNode<T>>)
    reads nodes
  {
    Distinct(nodes) && forall i :: 0 <= i < |nodes| ==> Linked(nodes, i)
  }

  lemma ValuesRemove<T>(nodes: seq<ListNode<T>>, k: nat)
    requires k < |nodes|
    ensures Values(nodes[..k] + nodes[k + 1..]) == Values(nodes)[..k] + Values(nodes)[k + 1..]
  {
  }

  lemma ChainAt<T>(nodes: seq<ListNode<T>>, k: nat)
    requires Chain(nodes) && k < |nodes|
    ensures nodes[k].prev == (if k == 0 then null else nodes[k - 1])
    ensures nodes[k].next == (if k == |nodes| - 1 then null else nodes[k + 1])
    ensures nodes[k] == nodes[0] <==> k == 0
    ensures nodes[k] == nodes[|nodes| - 1] <==> k == |nodes| - 1
  {
    assert Linked(nodes, k);
  }

  class List<T(==)> {
    var head: ListNode?<T>
    var tail: ListNode?<T>
    var len: nat
    ghost var nodes: seq<ListNode<T>>

    ghost predicate Valid()
      reads this, nodes
    {
      && len == |nodes|
      && Chain(nodes)
      && head == (if nodes == [] then null else nodes[0])
      && tail == (if nodes == [] then null else nodes[|nodes| - 1])
    }

    ghost function Contents(): (s: seq<T>)
      reads this, nodes
      ensures |s| == |nodes|
    {
      Values(nodes)
    }

    /** listCreate. */
    constructor ()
      ensures Valid() && nodes == []
    {
      head, tail, len, nodes := null, null, 0, [];
    }

    /** listEmpty: walk the list, then forget it. */
    method Clear()
      requires Valid()
      modifies this
      ensures Valid() && nodes == []
    {
      var current := head;
      var left := len;
      while left > 0
        invariant 0 <= left <= len
        invariant current == if left == 0 then null else nodes[len - left]
      {
        assert Linked(nodes, len - left);
        current := current.next;
        left := left - 1;
      }
      head, tail, len, nodes := null, null, 0, [];
    }

    /** listLinkNodeHead. */
    method LinkNodeHead(node: ListNode<T>)
      requires Valid() && node !in nodes
      modifies this, nodes, node
      ensures Valid() && nodes == [node] + old(nodes)
      ensures forall n :: n in nodes ==> n.value == old(n.value)
    {
      if len == 0 {
        head, tail := node, node;
        node.prev, node.next := null, null;
      } else {
        node.prev := null;
        node.next := head;
        head.prev := node;
        head := node;
      }
      nodes := [node] + nodes;
      len := len + 1;
      forall i | 0 <= i < |nodes| ensures Linked(nodes, i) {
        assert i > 0 ==> old(Linked(nodes, i - 1)) && nodes[i] == old(nodes)[i - 1];
      }
    }

    /** listAddNodeHead. */
    method AddNodeHead(v: T)
      requires Valid()
      modifies this, nodes
      ensures Valid() && Contents() == [v] + old(Contents())
      ensures |nodes| > 0 && fresh(nodes[0]) && nodes[1..] == old(nodes)
    {
      var node := new ListNode(v);
      LinkNodeHead(node);
    }

    /** listLinkNodeTail. */
    method LinkNodeTail(node: ListNode<T>)
      requires Valid() && node !in nodes
      modifies this, nodes, node
      ensures Valid() && nodes == old(nodes) + [node]
      ensures forall n :: n in nodes ==> n.value == old(n.value)
    {
      if len == 0 {
        head, tail := node, node;
        node.prev, node.next := null, null;
      } else {
        node.prev := tail;
        node.next := null;
        tail.next := node;
        tail := node;
      }
      nodes := nodes + [node];
      len := len + 1;
      forall i | 0 <= i < |nodes| ensures Linked(nodes, i) {
        assert i < |old(nodes)| ==> old(Linked(nodes, i)) && nodes[i] == old(nodes)[i];
      }
    }

    /** listAddNodeTail. */
    method AddNodeTail(v: T)
      requires Valid()
      modifies this, nodes
      ensures Valid() && Contents() == old(Contents()) + [v]
      ensures |nodes| == |old(nodes)| + 1 && fresh(nodes[|nodes| - 1]) && nodes[..|nodes| - 1] == old(nodes)
    {
      var node := new ListNode(v);
      LinkNodeTail(node);
    }

    /** listInsertNode, next to the node at position `k`. */
    method InsertNode(oldNode: ListNode<T>, v: T, after: bool, ghost k: nat)
      requires Valid() && k < |nodes| && nodes[k] == oldNode
      modifies this, nodes
      ensures Valid()
      ensures var at := if after then k + 1 else k;
        |nodes| == |old(nodes)| + 1 && nodes == old(nodes)[..at] + [nodes[at]] + old(nodes)[at..]
        && fresh(nodes[at]) && nodes[at].value == v
      ensures forall n :: n in old(nodes) ==> n.value == old(n.value)
    {
      hide Chain, Linked, Distinct;
      ChainAt(nodes, k);
      var node := new ListNode(v);
      ghost var at := if after then k + 1 else k;
      if after {
        node.prev := oldNode;
        node.next := oldNode.next;
        if tail == oldNode {
          tail := node;
        }
      } else {
        node.next := oldNode;
        node.prev := oldNode.prev;
        if head == oldNode {
          head := node;
        }
      }
      HookIn(nodes, node, at);
      len := len + 1;
      nodes := nodes[..at] + [node] + nodes[at..];
    }

    /** The second half of listInsertNode: the neighbours learn about the new node. */
    static method HookIn(ghost chain: seq<ListNode<T>>, node: ListNode<T>, ghost at: nat)
      requires Chain(chain) && at <= |chain| && node !in chain
      requires node.prev == (if at == 0 then null else chain[at - 1])
      requires node.next == (if at == |chain| then null else chain[at])
      modifies chain
      ensures Chain(chain[..at] + [node] + chain[at..])
      ensures forall n :: n in chain ==> n.value == old(n.value)
    {
      if node.prev != null {
        node.prev.next := node;
      }
      if node.next != null {
        node.next.prev := node;
      }
      ghost var after := chain[..at] + [node] + chain[at..];
      forall i | 0 <= i < |after| ensures Linked(after, i) {
        assert i < at ==> old(Linked(chain, i)) && after[i] == chain[i];
        assert i > at ==> old(Linked(chain, i - 1)) && after[i] == chain[i - 1];
      }
    }

    /** listUnlinkNode, for the node at position `k`. */
    method UnlinkNode(node: ListNode<T>, ghost k: nat)
      requires Valid() && k < |nodes| && nodes[k] == node
      modifies this, nodes
      ensures Valid() && nodes == old(nodes)[..k] + old(nodes)[k + 1..]
      ensures node.prev == null && node.next == null
      ensures forall n :: n in old(nodes) ==> n.value == old(n.value)
    {
      assert Linked(nodes, k);
      if node.prev != null {
        node.prev.next := node.next;
      } else {
        head := node.next;
      }
      if node.next != null {
        node.next.prev := node.prev;
      } else {
        tail := node.prev;
      }
      node.next := null;
      node.prev := null;
      nodes := nodes[..k] + nodes[k + 1..];
      len := len - 1;
      forall i | 0 <= i < |nodes| ensures Linked(nodes, i) {
        assert i < k ==> old(Linked(nodes, i)) && nodes[i] == old(nodes)[i];
        assert i >= k ==> old(Linked(nodes, i + 1)) && nodes[i] == old(nodes)[i + 1];
      }
    }

    /** listDelNode: unlink the node and let go of it. */
    method DelNode(node: ListNode<T>, ghost k: nat)
      requires Valid() && k < |nodes| && nodes[k] == node
      modifies this, nodes
      ensures Valid() && nodes == old(nodes)[..k] + old(nodes)[k + 1..]
      ensures Contents() == old(Contents())[..k] + old(Contents())[k + 1..]
    {
      hide Chain, Linked, Distinct, Values;
      ghost var before, x := nodes, Contents();
      UnlinkNode(node, k);
      assert Values(before) == x;
      ValuesRemove(before, k);
    }

    /** listRotateTailToHead. */
    method RotateTailToHead()
      requires Valid()
      modifies this, nodes
      ensures Valid()
      ensures nodes == if |old(nodes)| <= 1 then old(nodes)
                       else [old(nodes)[|old(nodes)| - 1]] + old(nodes)[..|old(nodes)| - 1]
      ensures forall n :: n in nodes ==> n.value == old(n.value)
    {
      if len <= 1 {
        return;
      }
      assert Linked(nodes, len - 1);
      var last := tail;
      tail := last.prev;
      tail.next := null;
      head.prev := last;
      last.prev := null;
      last.next := head;
      head := last;
      nodes := [nodes[len - 1]] + nodes[..len - 1];
      forall i | 0 <= i < |nodes| ensures Linked(nodes, i) {
        assert i > 0 ==> old(Linked(nodes, i - 1)) && nodes[i] == old(nodes)[i - 1];
      }
    }

    /** listRotateHeadToTail. */
    method RotateHeadToTail()
      requires Valid()
      modifies this, nodes
      ensures Valid()
      ensures nodes == if |old(nodes)| <= 1 then old(nodes) else old(nodes)[1..] + [old(nodes)[0]]
      ensures forall n :: n in nodes ==> n.value == old(n.value)
    {
      if len <= 1 {
        return;
      }
      assert Linked(nodes, 0);
      var first := head;
      head := first.next;
      head.prev := null;
      tail.next := first;
      first.next := null;
      first.prev := tail;
      tail := first;
      nodes := nodes[1..] + [nodes[0]];
      forall i | 0 <= i < |nodes| ensures Linked(nodes, i) {
        assert i < |nodes| - 1 ==> old(Linked(nodes, i + 1)) && nodes[i] == old(nodes)[i + 1];
      }
    }

    /** listJoin: all nodes of `o` move to the end of this list, and `o` is left empty. */
    method Join(o: List<T>)
      requires Valid() && o.Valid() && o != this
      requires Distinct(nodes + o.nodes)
      modifies this, nodes, o, o.nodes
      ensures Valid() && nodes == old(nodes) + old(o.nodes)
      ensures o.Valid() && o.nodes == []
      ensures forall n :: n in nodes ==> n.value == old(n.value)
    {
      if o.len == 0 {
        return;
      }
      hide Chain, Linked, Distinct;
      Hook(nodes, o.nodes, tail, o.head);
      if tail == null {
        head := o.head;
      }
      tail := o.tail;
      len := len + o.len;
      nodes := nodes + o.nodes;
      o.head, o.tail, o.len, o.nodes := null, null, 0, [];
    }

    /** Link two chains where they meet. */
    static method Hook(ghost a: seq<ListNode<T>>, ghost b: seq<ListNode<T>>, last: ListNode?<T>, first: ListNode<T>)
      requires Chain(a) && Chain(b) && Distinct(a + b)
      requires b != [] && first == b[0] && last == (if a == [] then null else a[|a| - 1])
      modifies a, b
      ensures Chain(a + b)
      ensures forall n :: n in a + b ==> n.value == old(n.value)
    {
      ghost var all := a + b;
      assert all[|a|] == first && (a != [] ==> all[|a| - 1] == last);
      first.prev := last;
      if last != null {
        last.next := first;
      }
      forall i | 0 <= i < |all| ensures Linked(all, i) {
        if i < |a| {
          assert old(Linked(a, i)) && all[i] == a[i] && all[i] != first;
          assert i < |a| - 1 ==> all[i] != last && all[i + 1] == a[i + 1];
        } else {
          assert old(Linked(b, i - |a|)) && all[i] == b[i - |a|];
          assert a != [] ==> all[i] != last;
          assert i > |a| ==> all[i] != first;
        }
      }
    }

    /** listIndex: from the head for an index of 0 and up, from the tail for -1 and down. */
    method Index(index: int) returns (n: ListNode?<T>)
      requires Valid()
      ensures n == if 0 <= index < |nodes| then nodes[index]
                   else if -|nodes| <= index < 0 then nodes[|nodes| + index]
                   else null
    {
      if index < 0 {
        var i := -index - 1;
        n := tail;
        ghost var at := |nodes| - 1;
        while i > 0 && n != null
          invariant 0 <= i <= -index - 1
          invariant at == |nodes| - 1 - (-index - 1 - i) && -1 <= at < |nodes|
          invariant n == if at < 0 then null else nodes[at]
        {
          assert Linked(nodes, at);
          n := n.prev;
          i := i - 1;
          at := at - 1;
        }
      } else {
        var i := index;
        n := head;
        ghost var at := 0;
        while i > 0 && n != null
          invariant 0 <= i <= index
          invariant at == index - i && 0 <= at <= |nodes|
          invariant n == if at == |nodes| then null else nodes[at]
        {
          assert Linked(nodes, at);
          n := n.next;
          i := i - 1;
          at := at + 1;
        }
      }
    }

    /** One round of listDup: the value of a node goes to the end of the copy. */
    method CopyNode(copy: List<T>, node: ListNode<T>, ghost i: nat)
      requires Valid() && copy.Valid() && copy != this && i < |nodes| && nodes[i] == node
      requires forall j, k :: 0 <= j < |nodes| && 0 <= k < |copy.nodes| ==> nodes[j] != copy.nodes[k]
      modifies copy, copy.nodes
      ensures Valid() && nodes == old(nodes) && Contents() == old(Contents())
      ensures copy.Valid() && copy.Contents() == old(copy.Contents()) + [Contents()[i]]
      ensures forall j :: 0 <= j < |copy.nodes| ==> copy.nodes[j] in old(copy.nodes) || fresh(copy.nodes[j])
    {
      hide Valid, Values;
      ListFacts(this, i);
      copy.AddNodeTail(node.value);
    }

    /** listDup. */
    method Dup() returns (copy: List<T>)
      requires Valid()
      ensures copy.Valid() && fresh(copy) && fresh(copy.nodes)
      ensures copy.Contents() == Contents()
    {
      hide Valid, Values, ListIter.At;
      copy := new List();
      ghost var all := Contents();
      var iter := new ListIter(this, FromHead);
      ghost var i := 0;
      ListFacts(this, 0);
      IterAt(iter, nodes, 0);
      var node := iter.Next(this, i);
      while node != null
        invariant Valid() && nodes == old(nodes) && Contents() == all
        invariant fresh(copy) && copy.Valid() && fresh(iter)
        invariant forall j :: 0 <= j < |copy.nodes| ==> fresh(copy.nodes[j])
        invariant i <= |nodes| && node == (if i < |nodes| then nodes[i] else null)
        invariant iter.direction == FromHead && iter.At(nodes, i + 1)
        invariant copy.Contents() == all[..i]
        decreases |nodes| - i
      {
        assert all[..i] + [all[i]] == all[..i + 1];
        CopyNode(copy, node, i);
        i := i + 1;
        IterAt(iter, nodes, i);
        node := iter.Next(this, i);
      }
    }

    /** listSearchKey: the first node that matches. */
    method SearchKey(match': (T, T) -> bool, key: T) returns (found: ListNode?<T>)
      requires Valid()
      ensures found == null ==> forall v :: v in Contents() ==> !match'(v, key)
      ensures found != null ==>
        exists i :: 0 <= i < |nodes| && nodes[i] == found && match'(found.value, key)
                    && forall j :: 0 <= j < i ==> !match'(Contents()[j], key)
    {
      hide Linked, Distinct;
      var iter := new ListIter(this, FromHead);
      ghost var i := 0;
      found := iter.Next(this, i);
      while found != null
        invariant fresh(iter) && Valid()
        invariant i <= |nodes| && found == (if i < |nodes| then nodes[i] else null)
        invariant iter.direction == FromHead && iter.At(nodes, i + 1)
        invariant forall j :: 0 <= j < i ==> !match'(Contents()[j], key)
        decreases |nodes| - i
      {
        if match'(found.value, key) {
          return;
        }
        i := i + 1;
        found := iter.Next(this, i);
      }
    }
  }

  /** The iterator remembers the node it will return next, not the one it returned. */
  class ListIter<T(==)> {
    var next: ListNode?<T>
    const direction: Direction

    /** The next call returns the `i`-th node in the order of this iterator. */
    ghost predicate At(nodes: seq<ListNode<T>>, i: nat)
      reads this
    {
      next ==
        if i >= |nodes| then null
        else if direction == FromHead then nodes[i] else nodes[|nodes| - 1 - i]
    }

    /** listGetIterator, listRewind and listRewindTail. */
    constructor (list: List<T>, d: Direction)
      requires list.Valid()
      ensures direction == d && At(list.nodes, 0)
      ensures d == FromHead ==> next == list.head
    {
      next := if d == FromHead then list.head else list.tail;
      direction := d;
    }

    /** listNext. */
    method Next(ghost list: List<T>, ghost i: nat) returns (current: ListNode?<T>)
      requires list.Valid() && (At(list.nodes, i) || next == null)
      modifies this`next
      ensures current == old(next)
      ensures old(At(list.nodes, i)) ==> At(list.nodes, i + 1)
      ensures old(next) == null ==> next == null
    {
      current := next;
      if current != null {
        ChainAt(list.nodes, if direction == FromHead then i else |list.nodes| - 1 - i);
        if direction == FromHead {
          next := current.next;
        } else {
          next := current.prev;
        }
      }
    }
  }

  lemma IterAt<T>(iter: ListIter<T>, nodes: seq<ListNode<T>>, i: nat)
    requires iter.direction == FromHead && iter.At(nodes, i)
    ensures iter.next == if i < |nodes| then nodes[i] else null
  {
  }

  // ----- Serving a list while it changes ------------------------------------------------------

  /** What happens to the visited node, and what is appended to the list meanwhile. */
  datatype Visit<T> = Visit(fate: Fate, added: seq<T>)
  datatype Fate = Stays | Leaves | GoesToTail

  function FateAt<T>(visits: seq<Visit<T>>, i: nat): Fate {
    if i < |visits| then visits[i].fate else Stays
  }

  function AddedAt<T>(visits: seq<Visit<T>>, i: nat): seq<T> {
    if i < |visits| then visits[i].added else []
  }

  /** Those of the first `i` that stay where they are. */
  function Staying<T>(entry: seq<T>, visits: seq<Visit<T>>, i: nat): seq<T>
    requires i <= |entry|
  {
    if i == 0 then []
    else Staying(entry, visits, i - 1) + if FateAt(visits, i - 1) == Stays then [entry[i - 1]] else []
  }

  /** What the first `i` visits put at the end. */
  function AtTheEnd<T>(entry: seq<T>, visits: seq<Visit<T>>, i: nat): seq<T>
    requires i <= |entry|
  {
    if i == 0 then []
    else
      AtTheEnd(entry, visits, i - 1)
      + (if FateAt(visits, i - 1) == GoesToTail then [entry[i - 1]] else []) + AddedAt(visits, i - 1)
  }

  /** What one visit makes of the contents, `k` being the position of the visited client. */
  function Visited<T>(x: seq<T>, k: nat, v: Visit<T>): seq<T>
    requires k < |x|
  {
    (if v.fate == Stays then x else x[..k] + x[k + 1..])
    + (if v.fate == GoesToTail then [x[k]] else []) + v.added
  }

  method AppendAll<T(==)>(clients: List<T>, values: seq<T>)
    requires clients.Valid()
    modifies clients, clients.nodes
    ensures clients.Valid() && clients.Contents() == old(clients.Contents()) + values
    ensures old(clients.nodes) <= clients.nodes
    ensures forall i :: |old(clients.nodes)| <= i < |clients.nodes| ==> fresh(clients.nodes[i])
  {
    hide *;
    var i := 0;
    ghost var x, nodes := clients.Contents(), clients.nodes;
    while i < |values|
      invariant 0 <= i <= |values| && clients.Valid()
      invariant clients.Contents() == x + values[..i]
      invariant nodes <= clients.nodes
      invariant forall i :: |nodes| <= i < |clients.nodes| ==> fresh(clients.nodes[i])
    {
      assert x + values[..i] + [values[i]] == x + values[..i + 1];
      clients.AddNodeTail(values[i]);
      i := i + 1;
    }
    assert values[..i] == values;
  }

  /** A client that leaves is unlinked; one that blocks again also gets a new node at the end. */
  method Depart<T(==)>(clients: List<T>, ln: ListNode<T>, again: bool, ghost k: nat)
    requires clients.Valid() && k < |clients.nodes| && clients.nodes[k] == ln
    modifies clients, clients.nodes
    ensures clients.Valid()
    ensures clients.Contents() == Visited(old(clients.Contents()), k, Visit(if again then GoesToTail else Leaves, []))
    ensures old(clients.nodes)[..k] + old(clients.nodes)[k + 1..] <= clients.nodes
    ensures forall i :: |old(clients.nodes)| - 1 <= i < |clients.nodes| ==> fresh(clients.nodes[i])
  {
    hide List.Valid, Values;
    ListFacts(clients, k);
    var client := ln.value;
    clients.DelNode(ln, k);
    ghost var y := clients.Contents();
    assert y + [] == y && y + [] + [] == y && y + [client] + [] == y + [client];
    if again {
      clients.AddNodeTail(client);
    }
  }

  /** One visit to the node at position `k`. */
  method DoVisit<T(==)>(clients: List<T>, ln: ListNode<T>, v: Visit<T>, ghost k: nat)
    requires clients.Valid() && k < |clients.nodes| && clients.nodes[k] == ln
    modifies clients, clients.nodes
    ensures clients.Valid()
    ensures forall j :: 0 <= j < |clients.nodes| ==> clients.nodes[j] in old(clients.nodes) || fresh(clients.nodes[j])
    ensures clients.Contents() == Visited(old(clients.Contents()), k, v)
    ensures (if v.fate == Stays then old(clients.nodes) else old(clients.nodes)[..k] + old(clients.nodes)[k + 1..])
         <= clients.nodes
  {
    hide List.Valid, Values, Visited;
    ghost var x := clients.Contents();
    VisitedAdd(x, k, v);
    if v.fate != Stays {
      Depart(clients, ln, v.fate == GoesToTail, k);
    }
    AppendAll(clients, v.added);
  }

  lemma VisitedAdd<T>(x: seq<T>, k: nat, v: Visit<T>)
    requires k < |x|
    ensures Visited(x, k, v) == Visited(x, k, Visit(v.fate, [])) + v.added
    ensures v.fate == Stays ==> Visited(x, k, v) == x + v.added
  {
    assert x + [] == x;
  }

  lemma StepContents<T>(entry: seq<T>, visits: seq<Visit<T>>, i: nat, x: seq<T>, k: nat)
    requires i < |entry|
    requires x == Staying(entry, visits, i) + entry[i..] + AtTheEnd(entry, visits, i)
    requires k == |Staying(entry, visits, i)|
    ensures k < |x| && x[k] == entry[i]
    ensures Visited(x, k, Visit(FateAt(visits, i), AddedAt(visits, i)))
      == Staying(entry, visits, i + 1) + entry[i + 1..] + AtTheEnd(entry, visits, i + 1)
    ensures |Staying(entry, visits, i + 1)| == if FateAt(visits, i) == Stays then k + 1 else k
    ensures |x| - k >= |entry| - i
  {
    hide FateAt, AddedAt;
    var s, h, r, t := Staying(entry, visits, i), [entry[i]], entry[i + 1..], AtTheEnd(entry, visits, i);
    assert entry[i..] == h + r;
    Rearrange(s, h, r, t, AddedAt(visits, i));
  }

  lemma Rearrange<T>(s: seq<T>, h: seq<T>, r: seq<T>, t: seq<T>, a: seq<T>)
    requires |h| == 1
    ensures var x := s + (h + r) + t;
      && x[..|s|] == s && x[|s|] == h[0] && x[|s| + 1..] == r + t
      && x + [] + a == (s + h) + r + (t + [] + a)
      && (s + (r + t)) + [] + a == (s + []) + r + (t + [] + a)
      && (s + (r + t)) + h + a == (s + []) + r + (t + h + a)
  {
  }

  /** A visit and the call of listNext after it: the iterator still goes to the node that was
      next before the visit. */
  method VisitAndNext<T(==)>(clients: List<T>, iter: ListIter<T>, ln: ListNode<T>, v: Visit<T>, ghost k: nat)
    returns (following: ListNode?<T>)
    requires clients.Valid() && k < |clients.nodes| && clients.nodes[k] == ln
    requires iter.direction == FromHead && iter.At(clients.nodes, k + 1)
    modifies clients, clients.nodes, iter
    ensures clients.Valid()
    ensures forall j :: 0 <= j < |clients.nodes| ==> clients.nodes[j] in old(clients.nodes) || fresh(clients.nodes[j])
    ensures clients.Contents() == Visited(old(clients.Contents()), k, v)
    ensures var k' := if v.fate == Stays then k + 1 else k;
      k + 1 < |old(clients.nodes)| ==>
        k' < |clients.nodes| && following == clients.nodes[k'] && iter.At(clients.nodes, k' + 1)
  {
    hide List.Valid, Values, Visited;
    ghost var nodes := clients.nodes;
    ghost var k' := if v.fate == Stays then k + 1 else k;
    DoVisit(clients, ln, v, k);
    if k + 1 < |nodes| {
      SlideDown(nodes, k, clients.nodes, v.fate == Stays);
    }
    following := iter.Next(clients, k');
  }

  lemma SlideDown<N>(before: seq<N>, k: nat, after: seq<N>, stays: bool)
    requires k + 1 < |before|
    requires (if stays then before else before[..k] + before[k + 1..]) <= after
    ensures var k' := if stays then k + 1 else k; k' < |after| && after[k'] == before[k + 1]
  {
    if !stays {
      assert (before[..k] + before[k + 1..])[k] == before[k + 1];
    }
  }

  /** After `i` visits: those who stayed, those not yet visited, and what came to the end. */
  ghost predicate Progress<T>(entry: seq<T>, visits: seq<Visit<T>>, i: nat, x: seq<T>, kept: nat) {
    && i <= |entry|
    && x == Staying(entry, visits, i) + entry[i..] + AtTheEnd(entry, visits, i)
    && kept == |Staying(entry, visits, i)|
  }

  /** The body of the loop: the client at the position reached, its visit, and the next node. */
  method ServeOne<T(==)>(clients: List<T>, iter: ListIter<T>, ln: ListNode<T>, v: Visit<T>,
      ghost entry: seq<T>, ghost visits: seq<Visit<T>>, ghost i: nat, ghost k: nat)
    returns (client: T, following: ListNode?<T>)
    requires clients.Valid() && k < |clients.nodes| && clients.nodes[k] == ln
    requires iter.direction == FromHead && iter.At(clients.nodes, k + 1)
    requires i < |entry| && v == Visit(FateAt(visits, i), AddedAt(visits, i))
    requires Progress(entry, visits, i, clients.Contents(), k)
    modifies clients, clients.nodes, iter
    ensures clients.Valid()
    ensures forall j :: 0 <= j < |clients.nodes| ==> clients.nodes[j] in old(clients.nodes) || fresh(clients.nodes[j])
    ensures client == entry[i]
    ensures var k' := if v.fate == Stays then k + 1 else k;
      && Progress(entry, visits, i + 1, clients.Contents(), k')
      && (i + 1 < |entry| ==>
            k' < |clients.nodes| && following == clients.nodes[k'] && iter.At(clients.nodes, k' + 1))
  {
    hide List.Valid, Values, Staying, AtTheEnd, Visited, ListIter.At, FateAt, AddedAt;
    StepContents(entry, visits, i, clients.Contents(), k);
    ListFacts(clients, k);
    client := ln.value;
    following := VisitAndNext(clients, iter, ln, v, k);
  }

  /** The loop of handleClientsBlockedOnKey. The length of the list is read once, and the next
      node before the visit. Every client that was there at entry is visited, once and in order,
      and nobody else, whatever each visit does to its own node or appends. */
  method Serve<T(==)>(clients: List<T>, visits: seq<Visit<T>>) returns (served: seq<T>)
    requires clients.Valid()
    modifies clients, clients.nodes
    ensures clients.Valid()
    ensures served == old(clients.Contents())
    ensures clients.Contents()
         == Staying(old(clients.Contents()), visits, |served|) + AtTheEnd(old(clients.Contents()), visits, |served|)
  {
    hide *;
    served := [];
    ghost var entry, nodes := clients.Contents(), clients.nodes;
    ListFacts(clients, 0);
    StartContents(entry, visits);
    var iter := new ListIter(clients, FromHead);
    var count := clients.len;
    ghost var kept := 0;
    var ln := iter.Next(clients, 0);
    StartAt(iter, clients, ln);
    while ln != null && count > 0
      invariant clients.Valid() && fresh(iter) && iter.direction == FromHead
      invariant forall j :: 0 <= j < |clients.nodes| ==> clients.nodes[j] in nodes || fresh(clients.nodes[j])
      invariant |served| + count == |entry| && served == entry[..|served|]
      invariant Progress(entry, visits, |served|, clients.Contents(), kept)
      invariant count > 0 ==> kept < |clients.nodes| && ln == clients.nodes[kept] && iter.At(clients.nodes, kept + 1)
      decreases count
    {
      count := count - 1;
      var i := |served|;
      var v := Visit(FateAt(visits, i), AddedAt(visits, i));
      var client;
      client, ln := ServeOne(clients, iter, ln, v, entry, visits, i, kept);
      served := served + [client];
      kept := if v.fate == Stays then kept + 1 else kept;
    }
    AllServed(entry, visits, clients.Contents(), kept);
  }

  lemma AllServed<T>(entry: seq<T>, visits: seq<Visit<T>>, x: seq<T>, kept: nat)
    requires Progress(entry, visits, |entry|, x, kept)
    ensures x == Staying(entry, visits, |entry|) + AtTheEnd(entry, visits, |entry|)
    ensures entry[..|entry|] == entry
  {
    assert entry[|entry|..] == [];
    var s := Staying(entry, visits, |entry|);
    assert s + [] == s;
  }

  lemma ListFacts<T>(list: List<T>, k: nat)
    requires list.Valid()
    ensures list.len == |list.nodes| == |list.Contents()|
    ensures k < |list.nodes| ==> list.Contents()[k] == list.nodes[k].value
  {
  }

  lemma StartAt<T>(iter: ListIter<T>, list: List<T>, ln: ListNode?<T>)
    requires list.Valid() && iter.direction == FromHead && iter.At(list.nodes, 1)
    requires ln == list.head
    ensures list.nodes != [] ==> ln == list.nodes[0]
    ensures list.nodes == [] ==> ln == null
  {
  }

  lemma StartContents<T>(entry: seq<T>, visits: seq<Visit<T>>)
    ensures Progress(entry, visits, 0, entry, 0)
  {
    assert [] + entry[0..] + [] == entry;
  }
}
