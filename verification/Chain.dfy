/** The null-terminated linked lists that sr_if.c and sr_rt.c keep: walked from the head, appended at
    the end, with only the last element updated in place. */
module Chain {

  class Node<T> {
    var value: T
    var next: Node?<T>

    constructor (value: T)
      ensures this.value == value && next == null
    {
      this.value := value;
      next := null;
    }
  }

  class List<T> {
    var head: Node?<T>
    ghost var nodes: seq<Node<T>>
    ghost var values: seq<T>

    /** The nodes are exactly those reached from the head, and hold the values in order. */
    ghost predicate Valid()
      reads this, nodes
    {
      && |values| == |nodes|
      && head == At(0)
      && forall i :: 0 <= i < |nodes| ==> nodes[i].next == At(i + 1) && nodes[i].value == values[i]
    }

    /** The i-th node, or null past the end. */
    ghost function At(i: nat): Node?<T>
      reads this
    {
      if i < |nodes| then nodes[i] else null
    }

    constructor ()
      ensures Valid() && values == [] && fresh(nodes)
    {
      head := null;
      nodes, values := [], [];
    }

    method Append(value: T)
      requires Valid()
      modifies this, nodes
      ensures Valid() && values == old(values) + [value]
      ensures forall n :: n in nodes ==> n in old(nodes) || fresh(n)
    {
      var added := new Node(value);
      if head == null {
        head := added;
      } else {
        var last := Last();
        last.next := added;
      }
      nodes, values := nodes + [added], values + [value];
    }

    /** Walks to the last node. */
    method Last() returns (last: Node<T>)
      requires Valid() && values != []
      ensures last == nodes[|nodes| - 1]
    {
      last := head;
      ghost var i := 0;
      while last.next != null
        invariant 0 <= i < |nodes| && last == nodes[i]
        decreases |nodes| - i
      {
        last := last.next;
        i := i + 1;
      }
    }

    method SetLast(value: T)
      requires Valid() && values != []
      modifies this`values, nodes
      ensures Valid() && values == old(values)[..|values| - 1] + [value]
    {
      var last := Last();
      last.value := value;
      values := values[..|values| - 1] + [value];
    }
  }
}
