/** The singly linked list of file actions both posix_spawn shims build: nodes chained through
    `next`, with `head` and `tail` in the owner. */
module ActionList {

  class Node<T> {
    var act: T
    var next: Node?<T>

    constructor (act: T)
      ensures this.act == act && next == null
    {
      this.act := act;
      next := null;
    }
  }

  class FileActions<T> {
    var head: Node?<T>
    var tail: Node?<T>
    ghost var nodes: seq<Node<T>>    // in list order

    ghost predicate Valid()
      reads this, nodes
    {
      && (head == if nodes == [] then null else nodes[0])
      && (tail == if nodes == [] then null else nodes[|nodes| - 1])
      && (forall i :: 0 <= i < |nodes| ==> nodes[i].next == if i + 1 < |nodes| then nodes[i + 1] else null)
      && (forall i, j :: 0 <= i < j < |nodes| ==> nodes[i] != nodes[j])
    }

    /** The actions, in order of addition. */
    ghost function Contents(): (s: seq<T>)
      reads this, nodes
      ensures |s| == |nodes| && forall i :: 0 <= i < |s| ==> s[i] == nodes[i].act
    {
      seq(|nodes|, i requires 0 <= i < |nodes| reads this, nodes => nodes[i].act)
    }

    constructor ()
      ensures Valid() && nodes == [] && Contents() == []
    {
      head, tail, nodes := null, null, [];
    }

    /** `outOfMemory` is malloc's answer. */
    method Append(act: T, outOfMemory: bool) returns (ok: bool)
      requires Valid()
      modifies this, nodes
      ensures Valid() && ok == !outOfMemory
      ensures Contents() == if ok then old(Contents()) + [act] else old(Contents())
      ensures fresh(set n | n in nodes && n !in old(nodes))
    {
      if outOfMemory {
        return false;
      }
      var n := new Node(act);
      if tail != null {
        tail.next := n;
      } else {
        head := n;
      }
      tail := n;
      nodes := nodes + [n];
      return true;
    }
  }
}
