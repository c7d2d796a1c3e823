/** The doubly linked bucket lists of ds/linkedlist.c. */
module LinkedList {
  import opened ExoVal
  import opened Store

  class ListNode {
    var key: string
    var value: ExoVal
    var expiry: nat
    var next: ListNode?
    var prev: ListNode?
    /** The bucket the node is made for. */
    ghost const home: nat
    /** What the value stands for, and the objects it is made of. */
    ghost var shows: Value
    ghost var region: set<object>
    /** Was the node given to free? */
    ghost var freed: bool

    /** newNode (ds/linkedlist.c:19-29). */
    constructor (key: string, value: ExoVal, ghost home: nat, ghost shows: Value, ghost region: set<object>)
      ensures AsCell() == Cell(key, shows, DEFAULT_EXPIRY_MS) && next == null && prev == null && this.home == home
      ensures this.value == value && this.shows == shows && this.region == region && !freed
    {
      this.key, this.value, this.expiry := key, value, DEFAULT_EXPIRY_MS;
      this.home, this.shows, this.region, this.freed := home, shows, region, false;
      next, prev := null, null;
    }

    ghost function AsCell(): Cell
      reads `key, `shows, `expiry
    {
      Cell(key, shows, expiry)
    }

    /** isExpired. */
    method IsExpired(now: nat) returns (expired: bool)
      requires SameKind(value, shows)
      ensures expired == Expired(AsCell(), now)
    {
      if !value.StrVal? { return false; }
      expired := expiry < now;
    }

    /** replaceNodeValue (ds/linkedlist.c:117-132). */
    method ReplaceValue(key: string, value: ExoVal, ghost shows: Value, ghost region: set<object>)
      modifies `key, `value, `shows, `region
      ensures AsCell() == Cell(key, shows, old(expiry))
      ensures this.value == value && this.shows == shows && this.region == region
    {
      this.key := key;
      this.value := value;
      this.shows, this.region := shows, region;
    }

    /** freeListNode: nothing may read the node from now on. */
    method Free()
      modifies `freed
      ensures freed
    {
      freed := true;
    }
  }

  /** The node was made for the list's bucket, and carries the kind of value it shows. */
  ghost predicate Fits(n: ListNode, home: nat)
    reads n`value, n`shows
  {
    n.home == home && SameKind(n.value, n.shows)
  }

  /** Node i is linked to its neighbours, and is the only one of its kind. */
  ghost predicate Linked(nodes: seq<ListNode>, i: nat)
    requires i < |nodes|
    reads nodes`next, nodes`prev
  {
    && nodes[i].next == (if i + 1 < |nodes| then nodes[i + 1] else null)
    && nodes[i].prev == (if i > 0 then nodes[i - 1] else null)
  }

  ghost predicate AllLinked(nodes: seq<ListNode>)
    reads nodes`next, nodes`prev
  {
    forall i {:trigger Linked(nodes, i)} :: 0 <= i < |nodes| ==> Linked(nodes, i)
  }

  ghost predicate TwoNodes(nodes: seq<ListNode>, i: nat, j: nat)
    requires i < |nodes| && j < |nodes|
  {
    nodes[i] != nodes[j]
  }

  ghost predicate NoRepeats(nodes: seq<ListNode>) {
    forall i, j {:trigger TwoNodes(nodes, i, j)} :: 0 <= i < j < |nodes| ==> TwoNodes(nodes, i, j)
  }

  lemma OneIndex(nodes: seq<ListNode>, i: nat, j: nat)
    requires NoRepeats(nodes) && i < |nodes| && j < |nodes| && nodes[i] == nodes[j]
    ensures i == j
  {
    assert i < j ==> TwoNodes(nodes, i, j);
    assert j < i ==> TwoNodes(nodes, j, i);
  }

  ghost predicate Unfreed(nodes: seq<ListNode>, i: nat)
    requires i < |nodes|
    reads nodes`freed
  {
    !nodes[i].freed
  }

  /** No node of a list was freed. */
  ghost predicate NoneFreed(nodes: seq<ListNode>)
    reads nodes`freed
  {
    forall i {:trigger Unfreed(nodes, i)} :: 0 <= i < |nodes| ==> Unfreed(nodes, i)
  }

  ghost function CellsOf(nodes: seq<ListNode>): (cells: seq<Cell>)
    reads nodes
    ensures |cells| == |nodes|
    ensures forall i {:trigger cells[i]} :: 0 <= i < |nodes| ==> cells[i] == nodes[i].AsCell()
  {
    seq(|nodes|, i requires 0 <= i < |nodes| reads nodes => nodes[i].AsCell())
  }

  class LinkedList {
    var head: ListNode?
    var tail: ListNode?
    var size: nat
    ghost var nodes: seq<ListNode>
    ghost const home: nat

    ghost predicate Valid()
      reads this, nodes`next, nodes`prev, nodes`value, nodes`shows
    {
      && size == |nodes|
      && head == (if nodes == [] then null else nodes[0])
      && tail == (if nodes == [] then null else nodes[|nodes| - 1])
      && AllLinked(nodes) && NoRepeats(nodes)
      && forall i {:trigger nodes[i]} :: 0 <= i < |nodes| ==> Fits(nodes[i], home)
    }

    ghost function Cells(): (cells: seq<Cell>)
      reads this, nodes
      ensures |cells| == |nodes|
    {
      CellsOf(nodes)
    }

    lemma NextOf(i: nat)
      requires Valid() && i < |nodes|
      ensures nodes[i].next == if i + 1 < |nodes| then nodes[i + 1] else null
    {
      assert Linked(nodes, i);
    }

    constructor (ghost home: nat)
      ensures Valid() && nodes == [] && Cells() == [] && this.home == home
    {
      head, tail, size := null, null, 0;
      nodes := [];
      this.home := home;
    }

    /** addNodeToList (ds/linkedlist.c:34-49). */
    method AddNode(node: ListNode)
      requires Valid() && node !in nodes && node.next == null && node.prev == null && Fits(node, home)
      modifies this, nodes`next, node`prev
      ensures Valid() && nodes == old(nodes) + [node]
      ensures Cells() == old(Cells()) + [old(node.AsCell())]
    {
      ghost var before := nodes;
      if head != null {
        tail.next := node;
        node.prev := tail;
        tail := tail.next;
      } else {
        head := node;
        tail := head;
      }
      size := size + 1;
      nodes := nodes + [node];
      forall i, j | 0 <= i < j < |nodes|
        ensures TwoNodes(nodes, i, j)
      {
        assert j < |before| ==> TwoNodes(before, i, j);
      }
      forall i | 0 <= i < |nodes|
        ensures Linked(nodes, i)
      {
        if i < |before| {
          assert old(Linked(before, i)) && before[i] != node;
          assert i + 1 < |before| ==> TwoNodes(before, i, |before| - 1);
        }
      }
    }

    /** Node j after its neighbour i was bypassed. */
    static ghost predicate Bypassed(before: seq<ListNode>, i: nat, j: nat)
      requires i < |before| && j < |before|
      reads before[j]
    {
      var last, first := i + 1 == |before|, i == 0;
      && before[j].next == (if j + 1 == i then (if last then null else before[i + 1])
                            else if j + 1 < |before| then before[j + 1] else null)
      && before[j].prev == (if j == i + 1 then (if first then null else before[i - 1])
                            else if j > 0 then before[j - 1] else null)
    }

    static lemma BypassedIs(before: seq<ListNode>, i: nat, j: nat, next: ListNode?, prev: ListNode?)
      requires i < |before| && j < |before| && j != i && NoRepeats(before)
      requires next == if j + 1 < |before| then before[j + 1] else null
      requires prev == if j > 0 then before[j - 1] else null
      requires before[j].next ==
        if i > 0 && before[j] == before[i - 1] then (if i + 1 < |before| then before[i + 1] else null) else next
      requires before[j].prev ==
        if i + 1 < |before| && before[j] == before[i + 1] then (if i > 0 then before[i - 1] else null) else prev
      ensures Bypassed(before, i, j)
    {
      if i > 0 && before[j] == before[i - 1] { OneIndex(before, j, i - 1); }
      if i + 1 < |before| && before[j] == before[i + 1] { OneIndex(before, j, i + 1); }
    }

    /** The four cases of removeNodeFromList. */
    method Bypass(node: ListNode, ghost before: seq<ListNode>, ghost i: nat)
      requires AllLinked(before) && NoRepeats(before) && i < |before| && node == before[i]
      requires size == |before| && head == before[0] && tail == before[|before| - 1]
      modifies this, before`next, before`prev
      ensures size == old(size) && nodes == old(nodes)
      ensures head == if |before| == 1 then null else if i == 0 then before[1] else before[0]
      ensures tail == if |before| == 1 then null else if i == |before| - 1 then before[i - 1] else before[|before| - 1]
      ensures forall j {:trigger Bypassed(before, i, j)} :: 0 <= j < |before| && j != i ==> Bypassed(before, i, j)
      ensures CellsOf(before) == old(CellsOf(before))
    {
      assert Linked(before, i);
      ghost var left := if i > 0 then before[i - 1] else null;
      ghost var right := if i + 1 < |before| then before[i + 1] else null;
      if size == 1 {
        head := null;
        tail := null;
      } else {
        if node.prev == null {
          node.next.prev := null;
          head := node.next;
        } else if node.next == null {
          node.prev.next := null;
          tail := node.prev;
        } else {
          node.prev.next := node.next;
          node.next.prev := node.prev;
        }
      }
      forall j | 0 <= j < |before| && j != i
        ensures Bypassed(before, i, j)
      {
        assert old(Linked(before, j));
        BypassedIs(before, i, j, old(before[j].next), old(before[j].prev));
      }
    }

    static lemma CellsUnlinked(before: seq<ListNode>, i: nat)
      requires i < |before|
      ensures CellsOf(before[..i] + before[i + 1..]) == Unlinked(CellsOf(before), i)
    {
    }

    /** The list takes over the nodes that are left. */
    method Shrink(ghost after: seq<ListNode>)
      requires size == |after| + 1 && AllLinked(after) && NoRepeats(after)
      requires head == (if after == [] then null else after[0])
      requires tail == (if after == [] then null else after[|after| - 1])
      requires forall i {:trigger after[i]} :: 0 <= i < |after| ==> Fits(after[i], home)
      modifies this
      ensures Valid() && nodes == after && head == old(head) && tail == old(tail)
    {
      size := size - 1;
      nodes := after;
    }

    /** removeNodeFromList (ds/linkedlist.c:55-77). */
    method RemoveNode(node: ListNode, ghost i: nat)
      requires Valid() && i < |nodes| && node == nodes[i]
      modifies this, nodes`next, nodes`prev
      ensures Valid() && nodes == old(nodes)[..i] + old(nodes)[i + 1..]
      ensures Cells() == Unlinked(old(Cells()), i)
    {
      ghost var before := nodes;
      ghost var after := before[..i] + before[i + 1..];
      Bypass(node, before, i);
      Relinked(before, i, after);
      CellsUnlinked(before, i);
      Shrink(after);
    }

    static lemma Relinked(before: seq<ListNode>, i: nat, nodes: seq<ListNode>)
      requires NoRepeats(before) && i < |before| && nodes == before[..i] + before[i + 1..]
      requires forall j {:trigger Bypassed(before, i, j)} :: 0 <= j < |before| && j != i ==> Bypassed(before, i, j)
      ensures AllLinked(nodes) && NoRepeats(nodes)
    {
      forall x, y | 0 <= x < y < |nodes|
        ensures TwoNodes(nodes, x, y)
      {
        assert TwoNodes(before, if x < i then x else x + 1, if y < i then y else y + 1);
      }
      forall x | 0 <= x < |nodes|
        ensures Linked(nodes, x)
      {
        var j := if x < i then x else x + 1;
        assert nodes[x] == before[j] && Bypassed(before, i, j);
      }
    }

    /** findNode (ds/linkedlist.c:102-111). */
    method FindNode(key: string) returns (tmp: ListNode?, ghost i: nat)
      requires Valid()
      ensures i == Find(Cells(), key)
      ensures tmp == if i < |nodes| then nodes[i] else null
    {
      tmp, i := head, 0;
      ghost var cells := Cells();
      while tmp != null
        invariant 0 <= i <= |nodes| && tmp == if i < |nodes| then nodes[i] else null
        invariant forall j :: 0 <= j < i ==> cells[j].key != key
        decreases |nodes| - i
      {
        assert Linked(nodes, i) && cells[i] == nodes[i].AsCell();
        if tmp.key == key {
          FindIs(cells, key, i);
          return;
        }
        tmp := tmp.next;
        i := i + 1;
      }
      FindFails(cells, key);
    }
  }
}
