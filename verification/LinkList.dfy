/** `linkList.c`: a generic singly linked list, appended to at the end and deleted from by datum. */
module LinkList {
  import opened Memory

  /** `Node`. The datum of a node never changes. */
  class Node {
    const data: object?
    var next: Node?

    constructor (data: object?)
      ensures this.data == data && next == null
    {
      this.data, this.next := data, null;
    }
  }

  function Data(v: seq<Node>): (data: seq<object?>)
    ensures |data| == |v| && forall i :: 0 <= i < |v| ==> data[i] == v[i].data
  {
    seq(|v|, i requires 0 <= i < |v| => v[i].data)
  }

  /** The position of the first node with this datum, or the number of nodes. */
  function First(v: seq<Node>, data: object?): (k: nat)
    ensures k <= |v| && (k < |v| ==> v[k].data == data)
    ensures forall i :: 0 <= i < k ==> v[i].data != data
  {
    if v == [] || v[0].data == data then 0 else 1 + First(v[1..], data)
  }

  lemma FirstIs(v: seq<Node>, data: object?, k: nat)
    requires k <= |v| && (k < |v| ==> v[k].data == data)
    requires forall i :: 0 <= i < k ==> v[i].data != data
    ensures First(v, data) == k
  {
  }

  /** The nodes without the first that has this datum. */
  function Without(v: seq<Node>, data: object?): (rest: seq<Node>) {
    if v == [] then [] else if v[0].data == data then v[1..] else [v[0]] + Without(v[1..], data)
  }

  lemma CutCons(v: seq<Node>, k: nat)
    requires k < |v|
    ensures v == [v[0]] + v[1..]
    ensures k < |v| - 1 ==> v[..k + 1] + v[k + 2..] == [v[0]] + (v[1..][..k] + v[1..][k + 1..])
  {
  }

  lemma {:induction false} WithoutAt(v: seq<Node>, data: object?)
    ensures var k := First(v, data);
            Without(v, data) == if k == |v| then v else v[..k] + v[k + 1..]
    ensures forall n :: n in Without(v, data) ==> n in v
  {
    if v != [] && v[0].data != data {
      WithoutAt(v[1..], data);
      CutCons(v, First(v[1..], data));
    }
  }

  /** Deletion takes away the first equal datum and nothing else. */
  function RemoveFirst(data: seq<object?>, d: object?): (rest: seq<object?>) {
    if data == [] then [] else if data[0] == d then data[1..] else [data[0]] + RemoveFirst(data[1..], d)
  }

  lemma DataCons(node: Node, v: seq<Node>)
    ensures Data([node] + v) == [node.data] + Data(v)
  {
  }

  lemma {:induction false} WithoutIsRemoveFirst(v: seq<Node>, d: object?)
    ensures Data(Without(v, d)) == RemoveFirst(Data(v), d)
  {
    if v != [] {
      assert Data(v)[1..] == Data(v[1..]) && Data(v)[0] == v[0].data;
      if v[0].data != d {
        WithoutIsRemoveFirst(v[1..], d);
        DataCons(v[0], Without(v[1..], d));
      }
    }
  }

  /** Deleting a datum that was added while absent gives back the same nodes. */
  lemma WithoutLast(v: seq<Node>, node: Node)
    requires node.data !in Data(v)
    ensures Without(v + [node], node.data) == v && First(v + [node], node.data) == |v|
  {
    forall i | 0 <= i < |v| ensures v[i].data != node.data {
      assert v[i].data == Data(v)[i];
    }
    FirstIs(v + [node], node.data, |v|);
    WithoutAt(v + [node], node.data);
  }

  ghost function NodeSet(v: seq<Node>): set<object> {
    set n | n in v
  }

  lemma NodeSetAppend(v: seq<Node>, node: Node)
    ensures NodeSet(v + [node]) == NodeSet(v) + {node}
  {
  }

  /** Deletion takes exactly one node out of the set, if any. */
  lemma NodeSetWithout(v: seq<Node>, data: object?)
    requires forall i, j :: 0 <= i < j < |v| ==> v[i] != v[j]
    ensures var k := First(v, data);
            NodeSet(Without(v, data)) == if k == |v| then NodeSet(v) else NodeSet(v) - {v[k]}
  {
    WithoutAt(v, data);
    var k := First(v, data);
    if k < |v| {
      forall n | n in v && n != v[k] ensures n in v[..k] + v[k + 1..] {
        var i :| 0 <= i < |v| && v[i] == n;
        assert i < k ==> v[..k][i] == n;
        assert i > k ==> v[k + 1..][i - k - 1] == n;
      }
    }
  }

  datatype Op = Add(d: object?) | Delete(d: object?)

  /** The list as a sequence: what a run of operations makes of it. */
  function Model(data: seq<object?>, ops: seq<Op>): (result: seq<object?>) {
    if ops == [] then data
    else
      var before := Model(data, ops[..|ops| - 1]);
      match ops[|ops| - 1]
      case Add(d) => before + [d]
      case Delete(d) => RemoveFirst(before, d)
  }

  /** A list by its head pointer. */
  class List {
    var head: Node?
    ghost var nodes: seq<Node>

    ghost predicate Valid()
      reads this, nodes
    {
      && head == (if nodes == [] then null else nodes[0])
      && (forall i {:trigger nodes[i].next} :: 0 <= i < |nodes| ==>
            nodes[i].next == if i + 1 < |nodes| then nodes[i + 1] else null)
      && (forall i, j :: 0 <= i < j < |nodes| ==> nodes[i] != nodes[j])
    }

    constructor ()
      ensures Valid() && nodes == []
    {
      head, nodes := null, [];
    }

    /** `add_node`: a new last node; all others keep their place. */
    method AddNode(data: object?, heap: Heap) returns (ghost node: Node)
      requires Valid()
      modifies this, nodes, heap
      ensures Valid() && nodes == old(nodes) + [node] && node.data == data
      ensures fresh(node) && heap.live == old(heap.live) + {node}
    {
      var newNode := new Node(data);
      heap.live := heap.live + {newNode};
      if head == null {
        head := newNode;
      } else {
        var current := head;
        ghost var k := 0;
        while current.next != null
          invariant k < |nodes| && current == nodes[k]
          invariant unchanged(this) && unchanged(nodes)
          decreases |nodes| - k
        {
          current := current.next;
          k := k + 1;
        }
        current.next := newNode;
      }
      node := newNode;
      nodes := nodes + [node];
    }

    /** The loop of `delete_node`: the first node with this datum, and the one in front of it. */
    method Locate(data: object?) returns (current: Node?, previous: Node?, ghost k: nat)
      requires Valid()
      ensures k == First(nodes, data)
      ensures current == if First(nodes, data) == |nodes| then null else nodes[First(nodes, data)]
      ensures previous == if First(nodes, data) == 0 then null else nodes[First(nodes, data) - 1]
    {
      current, previous := head, null;
      k := 0;
      while current != null && current.data != data
        invariant k <= |nodes| && current == if k == |nodes| then null else nodes[k]
        invariant previous == if k == 0 then null else nodes[k - 1]
        invariant forall i :: 0 <= i < k ==> nodes[i].data != data
        decreases |nodes| - k
      {
        previous := current;
        current := current.next;
        k := k + 1;
      }
      FirstIs(nodes, data, k);
    }

    /** Takes the k-th node out of the list. */
    method Unlink(current: Node, previous: Node?, ghost k: nat)
      requires Valid() && k < |nodes| && current == nodes[k]
      requires previous == if k == 0 then null else nodes[k - 1]
      modifies this, nodes
      ensures Valid() && nodes == old(nodes)[..k] + old(nodes)[k + 1..] && current !in nodes
    {
      if previous == null {
        head := current.next;
      } else {
        previous.next := current.next;
      }
      nodes := nodes[..k] + nodes[k + 1..];
    }

    /** `delete_node`: unlinks and frees the first node with this datum, if there is one. */
    method DeleteNode(data: object?, heap: Heap)
      requires Valid() && forall n :: n in nodes ==> n in heap.live
      modifies this, nodes, heap
      ensures Valid() && nodes == Without(old(nodes), data)
      ensures var k := First(old(nodes), data);
              heap.live == if k == |old(nodes)| then old(heap.live) else old(heap.live) - {old(nodes)[k]}
    {
      hide *;
      WithoutAt(nodes, data);
      var current, previous, k := Locate(data);
      if current != null {
        Unlink(current, previous, k);
        heap.Free(current);
      }
    }

    /** The nodes of the list are allocated. */
    ghost predicate Live(heap: Heap)
      reads this, heap
    {
      forall n :: n in nodes ==> n in heap.live
    }

    /** The allocated blocks that are not nodes of the list. */
    ghost function Others(heap: Heap): set<object>
      reads this, heap
    {
      heap.live - NodeSet(nodes)
    }

    method RunOne(op: Op, heap: Heap)
      requires Valid() && Live(heap)
      modifies this, nodes, heap
      ensures Valid() && Live(heap) && Others(heap) == old(Others(heap))
      ensures match op
              case Add(d) => Data(nodes) == old(Data(nodes)) + [d]
              case Delete(d) => Data(nodes) == RemoveFirst(old(Data(nodes)), d)
      ensures forall i :: 0 <= i < |nodes| ==> nodes[i] in old(nodes) || fresh(nodes[i])
    {
      match op
      case Add(d) =>
        var node := AddNode(d, heap);
        NodeSetAppend(old(nodes), node);
      case Delete(d) =>
        NodeSetWithout(nodes, d);
        WithoutIsRemoveFirst(nodes, d);
        WithoutAt(nodes, d);
        DeleteNode(d, heap);
    }

    /** A run of operations: the list behaves as the sequence does, and besides its nodes the
        blocks allocated are those that were: no node that left the list is still allocated. */
    method RunAll(ops: seq<Op>, heap: Heap)
      requires Valid() && Live(heap)
      modifies this, nodes, heap
      ensures Valid() && Live(heap) && Data(nodes) == Model(old(Data(nodes)), ops)
      ensures Others(heap) == old(Others(heap))
      ensures forall i :: 0 <= i < |nodes| ==> nodes[i] in old(nodes) || fresh(nodes[i])
    {
      ghost var data := Data(nodes);
      for i := 0 to |ops|
        invariant Valid() && Live(heap) && Data(nodes) == Model(data, ops[..i])
        invariant Others(heap) == old(Others(heap))
        invariant forall i :: 0 <= i < |nodes| ==> nodes[i] in old(nodes) || fresh(nodes[i])
      {
        assert ops[..i + 1][..i] == ops[..i];
        RunOne(ops[i], heap);
      }
      assert ops[..|ops|] == ops;
    }

    /** Adding a datum that is not in the list and deleting it again restores the list node by node,
        and the heap with it. */
    method AddThenDelete(data: object?, heap: Heap)
      requires Valid() && Live(heap) && data !in Data(nodes)
      modifies this, nodes, heap
      ensures Valid() && nodes == old(nodes) && heap.live == old(heap.live)
    {
      var node := AddNode(data, heap);
      WithoutLast(old(nodes), node);
      DeleteNode(data, heap);
    }
  }
}
