/** Doubly linked lists: nodes are pushed and taken at both ends, and unlinked from the middle. */
module LinkedLists {
  import opened Wrappers

  class ListNode<T> {
    const value: T
    var previous: ListNode?<T>
    var next: ListNode?<T>

    constructor (value: T)
      ensures this.value == value && previous == null && next == null
    {
      this.value, previous, next := value, null, null;
    }
  }

  /** The node at an index, and null outside the list. */
  function At<T>(nodes: seq<ListNode<T>>, i: int): ListNode?<T> {
    if 0 <= i < |nodes| then nodes[i] else null
  }

  /** The links of the node at index `i`. */
  ghost predicate LinkedAt<T>(nodes: seq<ListNode<T>>, i: int)
    requires 0 <= i < |nodes|
    reads nodes[i]
  {
    nodes[i].previous == At(nodes, i - 1) && nodes[i].next == At(nodes, i + 1)
  }

  ghost predicate Distinct<T>(s: seq<T>) {
    forall i, j | 0 <= i < j < |s| :: s[i] != s[j]
  }

  function Without<T>(s: seq<T>, i: nat): seq<T>
    requires i < |s|
  {
    s[..i] + s[i + 1..]
  }

  ghost function ValuesOf<T>(nodes: seq<ListNode<T>>): (s: seq<T>)
    ensures |s| == |nodes| && forall i | 0 <= i < |s| :: s[i] == nodes[i].value
  {
    seq(|nodes|, i requires 0 <= i < |nodes| => nodes[i].value)
  }

  class List<T> {
    var head: ListNode?<T>
    var tail: ListNode?<T>
    var length: nat
    ghost var nodes: seq<ListNode<T>>

    /** The nodes are distinct and linked both ways in the order of `nodes`. */
    ghost predicate Valid()
      reads this, nodes
    {
      length == |nodes| && head == At(nodes, 0) && tail == At(nodes, |nodes| - 1) &&
      Distinct(nodes) && forall i | 0 <= i < |nodes| :: LinkedAt(nodes, i)
    }

    ghost function Values(): (s: seq<T>)
      reads this
      ensures |s| == |nodes| && forall i | 0 <= i < |s| :: s[i] == nodes[i].value
    {
      ValuesOf(nodes)
    }

    constructor ()
      ensures Valid() && nodes == []
    {
      head, tail, length, nodes := null, null, 0, [];
    }

    method ShiftNode() returns (node: ListNode?<T>)
      requires Valid()
      modifies this, nodes
      ensures Valid() && node == At(old(nodes), 0) && nodes == if node == null then [] else Without(old(nodes), 0)
      ensures node != null ==> node.previous == null && node.next == null
    {
      node := null;
      if head != null {
        ghost var was := nodes;
        assert LinkedAt(was, 0);
        node := head;
        head := head.next;
        if head != null { head.previous := null; }
        tail := if tail == node then null else tail;
        length := length - 1;
        node.previous := null;
        node.next := null;
        nodes := nodes[1..];
        forall i | 0 <= i < |nodes|
          ensures LinkedAt(nodes, i)
        {
          assert old(LinkedAt(was, i + 1)) && was[i + 1] == nodes[i];
        }
      }
    }

    method UnshiftNode(node: ListNode<T>)
      requires Valid() && node !in nodes
      modifies this, nodes, node
      ensures Valid() && nodes == [node] + old(nodes)
    {
      ghost var was := nodes;
      node.previous := null;
      if head == null {
        node.next := null;
        tail := node;
      } else {
        node.next := head;
        head.previous := node;
      }
      head := node;
      length := length + 1;
      nodes := [node] + nodes;
      forall i | 0 <= i < |nodes| ensures LinkedAt(nodes, i) { assert i > 0 ==> old(LinkedAt(was, i - 1)); }
    }

    method PopNode() returns (node: ListNode?<T>)
      requires Valid()
      modifies this, nodes
      ensures Valid() && node == At(old(nodes), |old(nodes)| - 1)
      ensures nodes == if node == null then [] else old(nodes)[..|old(nodes)| - 1]
      ensures node != null ==> node.previous == null && node.next == null
    {
      node := null;
      if tail != null {
        ghost var was := nodes;
        assert LinkedAt(was, |was| - 1);
        node := tail;
        tail := tail.previous;
        if tail != null { tail.next := null; }
        head := if head == node then null else head;
        length := length - 1;
        node.previous := null;
        node.next := null;
        nodes := nodes[..|nodes| - 1];
        forall i | 0 <= i < |nodes| ensures LinkedAt(nodes, i) { assert old(LinkedAt(was, i)) && was[i] == nodes[i]; }
      }
    }

    method PushNode(node: ListNode<T>)
      requires Valid() && node !in nodes
      modifies this, nodes, node
      ensures Valid() && nodes == old(nodes) + [node]
    {
      ghost var was := nodes;
      node.next := null;
      if tail == null {
        node.previous := null;
        head := node;
      } else {
        node.previous := tail;
        tail.next := node;
      }
      tail := node;
      length := length + 1;
      nodes := nodes + [node];
      forall i | 0 <= i < |nodes| ensures LinkedAt(nodes, i) { assert i < |was| ==> old(LinkedAt(was, i)); }
    }

    /** Makes the neighbours of a node neighbours of each other. */
    method Bypass(internal: ListNode<T>, ghost at: nat)
      requires Valid() && at < |nodes| && nodes[at] == internal
      modifies this, nodes
      ensures nodes == old(nodes) && length == old(length) - 1
      ensures head == (if at == 0 then At(nodes, 1) else old(head))
      ensures tail == (if at == |nodes| - 1 then At(nodes, at - 1) else old(tail))
      ensures forall j | 0 <= j < |nodes| && j != at ::
                nodes[j].previous == (if j == at + 1 then At(nodes, at - 1) else old(nodes[j].previous)) &&
                nodes[j].next == (if j == at - 1 then At(nodes, at + 1) else old(nodes[j].next))
    {
      assert LinkedAt(nodes, at);
      hide LinkedAt;
      var next, previous := internal.next, internal.previous;
      if previous == null {
        head := next;
        if head != null { head.previous := null; }
      }
      if next == null {
        tail := previous;
        if tail != null { tail.next := null; }
      }
      if previous != null && next != null {
        previous.next := next;
        next.previous := previous;
      }
      internal.next := null;
      internal.previous := null;
      length := length - 1;
    }

    /** Unlinks a node, wherever in the list it is. */
    method RemoveInternalNode(internal: ListNode<T>, ghost at: nat)
      requires Valid() && at < |nodes| && nodes[at] == internal
      modifies this, nodes
      ensures Valid() && nodes == Without(old(nodes), at) && length == old(length) - 1
    {
      ghost var was := nodes;
      Bypass(internal, at);
      nodes := Without(nodes, at);
      assert Distinct(nodes);
      hide Distinct;
      forall i | 0 <= i < |nodes| ensures LinkedAt(nodes, i) {
        ghost var j := if i < at then i else i + 1;
        assert old(LinkedAt(was, j)) && was[j] == nodes[i];
      }
    }

    /** Walks from one of the ends; the choice of the end does not matter for the result. */
    method ElementAt(index: nat) returns (value: Option<T>)
      requires Valid()
      ensures value == if index < |nodes| then Some(nodes[index].value) else None
    {
      // the difference is unsigned: the walk starts at the head only for the middle index
      var currentIndex := if index != length / 2 then length - 1 else 0;
      var currentNode := if currentIndex == 0 then head else tail;
      while currentIndex != index && currentNode != null
        invariant currentNode == At(nodes, currentIndex)
        invariant if currentIndex > index then currentIndex < length else currentIndex >= 0 || length == 0
        decreases if currentNode == null then 0 else
                  1 + if currentIndex > index then currentIndex - index else index - currentIndex
      {
        assert LinkedAt(nodes, currentIndex);
        currentNode := if currentIndex > index then currentNode.previous else currentNode.next;
        currentIndex := if currentIndex > index then currentIndex - 1 else currentIndex + 1;
      }
      value := if currentNode != null then Some(currentNode.value) else None;
    }

    /** Takes the first value. */
    method ShiftValue() returns (value: T)
      requires Valid() && length > 0
      modifies this, nodes
      ensures Valid() && length == old(length) - 1 && old(Values()) == [value] + Values()
      ensures forall i | 0 <= i < |nodes| :: nodes[i] in old(nodes)
    {
      hide LinkedAt, Distinct;
      FirstValue(nodes);
      var node := ShiftNode();
      value := node.value;
    }

    /** Takes the last value. */
    method PopValue() returns (value: T)
      requires Valid() && length > 0
      modifies this, nodes
      ensures Valid() && length == old(length) - 1 && old(Values()) == Values() + [value]
      ensures forall i | 0 <= i < |nodes| :: nodes[i] in old(nodes)
    {
      hide LinkedAt, Distinct;
      LastValue(nodes);
      var node := PopNode();
      value := node.value;
    }

    /** Adds a value at the end. */
    method PushValue(value: T)
      requires Valid()
      modifies this, nodes
      ensures Valid() && length == old(length) + 1 && Values() == old(Values()) + [value]
      ensures forall i | 0 <= i < |nodes| :: nodes[i] in old(nodes) || fresh(nodes[i])
    {
      hide LinkedAt, Distinct;
      var node := new ListNode(value);
      PushNode(node);
    }

    /** Drains the list from its head. */
    method Destroy() returns (values: seq<T>)
      requires Valid()
      modifies this, nodes
      ensures Valid() && nodes == [] && values == old(Values())
    {
      hide *;
      values := [];
      while length > 0
        invariant Valid() && values + Values() == old(Values())
        invariant forall i | 0 <= i < |nodes| :: nodes[i] in old(nodes)
        decreases length
      {
        ghost var before := Values();
        var value := ShiftValue();
        MoveOne(values, value, Values(), before);
        values := values + [value];
      }
      NoNodes();
      assert values + [] == values;
    }

    lemma NoNodes()
      requires Valid() && length == 0
      ensures nodes == [] && Values() == []
    {
    }
  }

  lemma FirstValue<T>(nodes: seq<ListNode<T>>)
    requires nodes != []
    ensures At(nodes, 0) == nodes[0] && ValuesOf(nodes) == [nodes[0].value] + ValuesOf(Without(nodes, 0))
    ensures forall i | 0 <= i < |nodes| - 1 :: Without(nodes, 0)[i] in nodes
  {
  }

  lemma LastValue<T>(nodes: seq<ListNode<T>>)
    requires nodes != []
    ensures At(nodes, |nodes| - 1) == nodes[|nodes| - 1]
    ensures ValuesOf(nodes) == ValuesOf(nodes[..|nodes| - 1]) + [nodes[|nodes| - 1].value]
  {
  }

  lemma MoveOne<T>(a: seq<T>, x: T, rest: seq<T>, all: seq<T>)
    requires all == [x] + rest
    ensures a + [x] + rest == a + all
  {
  }
}
