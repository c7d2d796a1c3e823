/** The singly linked argument list of ds/utilities.c:125-165. */
module ArgList {
  class ArgNode {
    const key: string
    var next: ArgNode?
    ghost const index: nat

    constructor (key: string, ghost index: nat)
      ensures this.key == key && this.index == index && next == null
    {
      this.key, this.index := key, index;
      next := null;
    }
  }

  class ArgList {
    var head: ArgNode?
    var tail: ArgNode?
    var size: nat
    ghost var nodes: seq<ArgNode>

    /** Node i knows its place and leads to the next one. */
    ghost predicate LinkedAt(i: nat)
      requires i < |nodes|
      reads this, nodes
    {
      nodes[i].index == i && nodes[i].next == if i + 1 < |nodes| then nodes[i + 1] else null
    }

    ghost predicate Valid()
      reads this, nodes
    {
      && size == |nodes|
      && head == (if nodes == [] then null else nodes[0])
      && tail == (if nodes == [] then null else nodes[|nodes| - 1])
      && forall i {:trigger LinkedAt(i)} :: 0 <= i < |nodes| ==> LinkedAt(i)
    }

    /** The node at a place, or none past the end. */
    ghost function NodeAt(k: nat): ArgNode?
      reads this
    {
      if k < |nodes| then nodes[k] else null
    }

    /** The strings of the list, in order. */
    ghost function Keys(): (keys: seq<string>)
      reads this
      ensures |keys| == |nodes|
    {
      var ns := nodes;
      seq(|ns|, i requires 0 <= i < |ns| => ns[i].key)
    }

    constructor ()
      ensures Valid() && nodes == [] && Keys() == []
    {
      head, tail, size := null, null, 0;
      nodes := [];
    }

    /** newArg and addArgToList. */
    method Add(key: string)
      requires Valid()
      modifies this, nodes
      ensures Valid() && Keys() == old(Keys()) + [key]
      ensures nodes == old(nodes) + [nodes[|old(nodes)|]] && fresh(nodes[|old(nodes)|])
    {
      var node := new ArgNode(key, |nodes|);
      if head != null {
        tail.next := node;
        tail := tail.next;
      } else {
        head := node;
        tail := head;
      }
      size := size + 1;
      ghost var before := nodes;
      nodes := nodes + [node];
      forall i | 0 <= i < |nodes|
        ensures LinkedAt(i)
      {
        if i < |before| { assert old(LinkedAt(i) && LinkedAt(|before| - 1)); }
      }
    }
  }
}
