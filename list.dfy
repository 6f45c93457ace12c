/**
  The singly linked list of list/list.c: nodes that carry a data pointer
  and a link to the next node, `node_create`, `node_append` and
  `node_free`.

  The data pointer is generic (`D`); a list is described by the ghost
  sequence of its nodes from the head to the node whose link is NULL.
 */
module LinkedList {

  /** `struct node`. */
  class Node<D> {
    var data: D
    var next: Node?<D>

    /** node_create: a fresh node holding `data`, linked to nothing. */
    constructor (data: D)
      ensures this.data == data && next == null
    {
      this.data := data;
      next := null;
    }
  }

  /** `nodes` are the nodes reached from `head`, in order: each links to
      the next, the last links to NULL, and no node occurs twice. A NULL
      head is the empty list. */
  ghost predicate IsList<D>(head: Node?<D>, nodes: seq<Node<D>>)
    reads set i | 0 <= i < |nodes| :: nodes[i]
  {
    && (head == null <==> |nodes| == 0)
    && (|nodes| > 0 ==> head == nodes[0] && nodes[|nodes| - 1].next == null)
    && (forall i :: 0 <= i < |nodes| - 1 ==> nodes[i].next == nodes[i + 1])
    && (forall i, j :: 0 <= i < j < |nodes| ==> nodes[i] != nodes[j])
  }

  /** The data pointers of the nodes, head first. */
  ghost function Data<D>(nodes: seq<Node<D>>): (ds: seq<D>)
    reads set i | 0 <= i < |nodes| :: nodes[i]
    ensures |ds| == |nodes|
    ensures forall i :: 0 <= i < |nodes| ==> ds[i] == nodes[i].data
  {
    seq(|nodes|, i reads set i | 0 <= i < |nodes| :: nodes[i] requires 0 <= i < |nodes| => nodes[i].data)
  }

  /** A head determines its list: two node sequences that both describe
      the list starting at `head` are the same sequence. */
  lemma {:induction false} IsListUnique<D>(head: Node?<D>, a: seq<Node<D>>, b: seq<Node<D>>)
    requires IsList(head, a) && IsList(head, b)
    ensures a == b
    decreases |a|
  {
    if |a| > 0 {
      assert |b| > 0 && a[0] == b[0];
      var next := a[0].next;
      assert a[0].next == if |a| > 1 then a[1] else null;
      assert b[0].next == if |b| > 1 then b[1] else null;
      if next != null {
        assert |a| > 1 && |b| > 1;
        assert IsList(next, a[1..]);
        assert IsList(next, b[1..]);
        IsListUnique(next, a[1..], b[1..]);
        assert a == [a[0]] + a[1..] && b == [b[0]] + b[1..];
      }
    }
  }

  /** node_append: walks to the last node and links a fresh node holding
      `data` behind it, returning the new node; for an empty list (a NULL
      `list`) nothing is created and NULL is returned. Only the last node's
      link changes. */
  method Append<D>(list: Node?<D>, data: D, ghost nodes: seq<Node<D>>) returns (r: Node?<D>)
    requires IsList(list, nodes)
    modifies if |nodes| > 0 then {nodes[|nodes| - 1]} else {}
    ensures |nodes| == 0 ==> r == null
    ensures |nodes| > 0 ==> r != null && fresh(r) && r.data == data && r.next == null
    ensures |nodes| > 0 ==> IsList(list, nodes + [r]) && Data(nodes + [r]) == old(Data(nodes)) + [data]
  {
    var last: Node?<D> := null;
    var cur := list;
    ghost var i := 0;
    while cur != null
      invariant 0 <= i <= |nodes|
      invariant cur == if i < |nodes| then nodes[i] else null
      invariant last == if i == 0 then null else nodes[i - 1]
      decreases |nodes| - i
    {
      last := cur;
      cur := cur.next;
      i := i + 1;
    }
    if last != null {
      var next := new Node(data);
      next.data := data;
      last.next := next;
      r := next;
      assert Data(nodes + [r]) == old(Data(nodes)) + [data];
    } else {
      r := null;
    }
  }

  /** node_free: visits every node once, head to tail, reading the link of
      a node before releasing it; the result lists the data pointers in the
      order they are released. */
  method Free<D>(start: Node?<D>, ghost nodes: seq<Node<D>>) returns (released: seq<D>)
    requires IsList(start, nodes)
    ensures released == Data(nodes)
  {
    released := [];
    var next := start;
    ghost var i := 0;
    while next != null
      invariant 0 <= i <= |nodes|
      invariant next == if i < |nodes| then nodes[i] else null
      invariant released == Data(nodes[..i])
      decreases |nodes| - i
    {
      var curr := next;
      next := curr.next;
      released := released + [curr.data];
      i := i + 1;
    }
    assert nodes[..i] == nodes;
  }

  /** The calls of `main`: a list created with "one", then "two" and
      "three" appended; freeing it releases the three strings in order. */
  method Demo() returns (released: seq<string>)
    ensures released == ["one", "two", "three"]
  {
    var list := new Node("one");
    assert IsList(list, [list]);
    var two := Append(list, "two", [list]);
    assert [list] + [two] == [list, two];
    var three := Append(list, "three", [list, two]);
    assert [list, two] + [three] == [list, two, three];
    released := Free(list, [list, two, three]);
  }
}
