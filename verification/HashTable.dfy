/** The hash table of ds/hashtable.c: an array of bucket lists and a hash function. */
module HashTable {
  import opened Decimal
  import opened ExoVal
  import opened Store
  import opened LinkedList

  // ----- the operations on the one bucket they touch -----

  /** No node came to the list but this one, or none. */
  twostate predicate Adds(list: LinkedList, new node: ListNode?)
    reads list
  {
    && (forall i {:trigger list.nodes[i]} :: 0 <= i < |list.nodes| ==>
      list.nodes[i] in old(list.nodes) || list.nodes[i] == node)
    && (node != null ==> node in old(list.nodes) || fresh(node))
  }

  /** The node that holds the key, if there is one. */
  ghost function Holder(list: LinkedList, key: string): (nodes: set<ListNode>)
    reads list, list.nodes
    ensures forall n {:trigger n in nodes} :: n in nodes ==> n in list.nodes
  {
    var i := Find(list.Cells(), key);
    if i < |list.nodes| then {list.nodes[i]} else {}
  }

  /** The node that was taken out is not among those that are left. */
  lemma NoneFreedWithout(before: seq<ListNode>, i: nat, nodes: seq<ListNode>)
    requires NoRepeats(before) && i < |before| && nodes == before[..i] + before[i + 1..]
    ensures (forall j {:trigger Unfreed(before, j)} :: 0 <= j < |before| && before[j] != before[i] ==>
        Unfreed(before, j)) ==> NoneFreed(nodes)
  {
    forall k | 0 <= k < |nodes|
      ensures nodes[k] != before[i] && nodes[k] in before
      ensures Unfreed(before, if k < i then k else k + 1) == Unfreed(nodes, k)
    {
      var j := if k < i then k else k + 1;
      assert nodes[k] == before[j];
      if before[j] == before[i] { OneIndex(before, j, i); }
    }
  }

  lemma NoneFreedWith(nodes: seq<ListNode>, node: ListNode)
    requires !node.freed
    ensures NoneFreed(nodes + [node]) <==> NoneFreed(nodes)
  {
    var more := nodes + [node];
    assert forall i {:trigger Unfreed(nodes, i)} {:trigger Unfreed(more, i)} :: 0 <= i < |nodes| ==>
      Unfreed(more, i) == Unfreed(nodes, i);
  }

  /** freeListNode on a node of a list. */
  method Release(list: LinkedList, node: ListNode)
    requires list.Valid()
    modifies node`freed
    ensures node.freed && list.Valid() && list.Cells() == old(list.Cells())
  {
    node.Free();
  }

  /** removeNodeFromList and freeListNode. */
  method TakeOut(list: LinkedList, node: ListNode, ghost i: nat)
    requires list.Valid() && i < |list.nodes| && node == list.nodes[i]
    modifies list, list.nodes`next, list.nodes`prev, list.nodes`freed
    ensures list.Valid() && Adds(list, null) && (old(NoneFreed(list.nodes)) ==> NoneFreed(list.nodes))
    ensures list.Cells() == Unlinked(old(list.Cells()), i)
  {
    ghost var before := list.nodes;
    list.RemoveNode(node, i);
    Release(list, node);
    forall j | old(NoneFreed(list.nodes)) && 0 <= j < |before| && before[j] != before[i]
      ensures Unfreed(before, j)
    {
      assert old(Unfreed(before, j));
    }
    NoneFreedWithout(before, i, list.nodes);
  }

  /** del (ds/hashtable.c:110-117). */
  method DelIn(list: LinkedList, key: string, now: nat) returns (count: nat)
    requires list.Valid()
    modifies list, list.nodes`next, list.nodes`prev, list.nodes`freed
    ensures list.Valid() && Adds(list, null) && (old(NoneFreed(list.nodes)) ==> NoneFreed(list.nodes))
    ensures (Count(count), list.Cells()) == DelB(old(list.Cells()), key, now)
  {
    var node; ghost var i;
    node, i := list.FindNode(key);
    if node == null { return 0; }
    var expired := node.IsExpired(now);
    TakeOut(list, node, i);
    count := if expired then 0 else 1;
  }

  /** get (ds/hashtable.c:25-33). */
  method GetIn(list: LinkedList, key: string, now: nat)
    returns (value: Option<ExoVal>, ghost node: ListNode?)
    requires list.Valid()
    modifies list, list.nodes`next, list.nodes`prev, list.nodes`freed
    ensures list.Valid() && Adds(list, null) && (old(NoneFreed(list.nodes)) ==> NoneFreed(list.nodes))
    ensures value == if node == null then None else Some(node.value)
    ensures node != null ==> Holder(list, key) == {node}
    ensures (Found(if node == null then None else Some(node.shows)), list.Cells()) == GetB(old(list.Cells()), key, now)
  {
    var found; ghost var i;
    found, i := list.FindNode(key);
    if found == null { return None, null; }
    var expired := found.IsExpired(now);
    if expired {
      var _ := DelIn(list, key, now);
      return None, null;
    }
    value, node := Some(found.value), found;
  }

  ghost predicate IsText(n: ListNode, str: string)
    reads n`value, n`shows, n`region
  {
    n.value == StrVal(str) && n.shows == Text(str) && n.region == {}
  }

  /** A node's key, value and expiry change in place. */
  method OverwriteNode(node: ListNode, key: string, value: ExoVal, expiry: nat, ghost shows: Value,
                       ghost region: set<object>, ghost nodes: seq<ListNode>, ghost i: nat)
    requires AllLinked(nodes) && NoRepeats(nodes) && i < |nodes| && node == nodes[i]
    modifies node`key, node`value, node`expiry, node`shows, node`region
    ensures node.value == value && node.shows == shows && node.region == region
    ensures AllLinked(nodes) && CellsOf(nodes) == old(CellsOf(nodes))[i := Cell(key, shows, expiry)]
  {
    node.expiry := expiry;
    node.ReplaceValue(key, value, shows, region);
    forall j | 0 <= j < |nodes|
      ensures Linked(nodes, j)
    {
      assert old(Linked(nodes, j));
    }
    forall j | 0 <= j < |nodes|
      ensures CellsOf(nodes)[j] == old(CellsOf(nodes))[i := Cell(key, shows, expiry)][j]
    {
      if nodes[j] == node { OneIndex(nodes, j, i); }
    }
  }

  method Overwrite(list: LinkedList, node: ListNode, ghost i: nat, key: string, value: ExoVal, expiry: nat,
                   ghost shows: Value, ghost region: set<object>)
    requires list.Valid() && i < |list.nodes| && node == list.nodes[i] && SameKind(value, shows)
    modifies node`key, node`value, node`expiry, node`shows, node`region
    ensures node.value == value && node.shows == shows && node.region == region
    ensures list.Valid()
    ensures list.Cells() == old(list.Cells())[i := Cell(key, shows, expiry)]
  {
    OverwriteNode(node, key, value, expiry, shows, region, list.nodes, i);
    assert forall j {:trigger list.nodes[j]} :: 0 <= j < |list.nodes| ==> old(Fits(list.nodes[j], list.home));
  }

  ghost method TouchNode(node: ListNode, nodes: seq<ListNode>, i: nat, shows: Value, region: set<object>)
    requires NoRepeats(nodes) && i < |nodes| && node == nodes[i]
    modifies node`shows, node`region
    ensures node.shows == shows && node.region == region
    ensures CellsOf(nodes) == old(CellsOf(nodes))[i := Cell(node.key, shows, node.expiry)]
  {
    node.shows, node.region := shows, region;
    forall j | 0 <= j < |nodes|
      ensures CellsOf(nodes)[j] == old(CellsOf(nodes))[i := Cell(node.key, shows, node.expiry)][j]
    {
      if nodes[j] == node { OneIndex(nodes, j, i); }
    }
  }

  /** The object behind a node's value has changed, and the node shows what it stands for now. */
  ghost method TouchIn(list: LinkedList, node: ListNode, key: string, shows: Value, region: set<object>)
    requires list.Valid() && Holder(list, key) == {node} && SameKind(node.value, shows)
    modifies node`shows, node`region
    ensures list.Valid() && Holder(list, key) == {node} && node.shows == shows && node.region == region
    ensures list.Cells() == PutB(old(list.Cells()), key, shows).1
  {
    var i := Find(list.Cells(), key);
    assert node in Holder(list, key) && node == list.nodes[i];
    TouchNode(node, list.nodes, i, shows, region);
    assert forall j {:trigger list.nodes[j]} :: 0 <= j < |list.nodes| ==> old(Fits(list.nodes[j], list.home));
    FindIs(list.Cells(), key, i);
  }

  /** A new node at the end. */
  method Append(list: LinkedList, key: string, value: ExoVal, expiry: nat, ghost shows: Value,
                ghost region: set<object>)
    returns (node: ListNode)
    requires list.Valid() && SameKind(value, shows)
    modifies list, list.nodes`next
    ensures fresh(node) && node.value == value && node.shows == shows && node.region == region && !node.freed
    ensures list.Valid() && list.nodes == old(list.nodes) + [node]
    ensures NoneFreed(list.nodes) <==> old(NoneFreed(list.nodes))
    ensures list.Cells() == old(list.Cells()) + [Cell(key, shows, expiry)]
  {
    node := new ListNode(key, value, list.home, shows, region);
    node.expiry := expiry;
    list.AddNode(node);
    NoneFreedWith(old(list.nodes), node);
  }

  /** set (ds/hashtable.c:41-51). */
  method PutIn(list: LinkedList, key: string, value: ExoVal, ghost shows: Value, ghost region: set<object>)
    returns (ghost node: ListNode)
    requires list.Valid() && SameKind(value, shows)
    modifies list, list.nodes`next, Holder(list, key)
    ensures list.Valid() && Adds(list, node) && (old(NoneFreed(list.nodes)) ==> NoneFreed(list.nodes))
    ensures node in old(Holder(list, key)) || (fresh(node) && old(Holder(list, key)) == {})
    ensures node.value == value && node.shows == shows && node.region == region && Holder(list, key) == {node}
    ensures (Done, list.Cells()) == PutB(old(list.Cells()), key, shows)
  {
    var found; ghost var i;
    found, i := list.FindNode(key);
    ghost var cells := list.Cells();
    if found != null {
      Overwrite(list, found, i, key, value, found.expiry, shows, region);
      node := found;
      FindIs(list.Cells(), key, i);
    } else {
      node := Append(list, key, value, DEFAULT_EXPIRY_MS, shows, region);
      FindIs(list.Cells(), key, i);
    }
  }

  /** setFromLoad (ds/hashtable.c:58-68). */
  method LoadIn(list: LinkedList, key: string, str: string, expiry: nat, now: nat)
    returns (ghost node: ListNode?)
    requires list.Valid()
    modifies list, list.nodes`next
    ensures list.Valid() && Adds(list, node) && (old(NoneFreed(list.nodes)) ==> NoneFreed(list.nodes))
    ensures node != null ==> fresh(node) && IsText(node, str)
    ensures list.Cells() == LoadB(old(list.Cells()), key, str, expiry, now)
  {
    if expiry < now { return null; }
    node := Append(list, key, StrVal(str), expiry, Text(str), {});
  }

  /** ds/hashtable.c:78: the node is freed, and under the rule Unlink taken out first. */
  method Discard(list: LinkedList, node: ListNode, ghost i: nat, rule: StaleRule)
    requires list.Valid() && i < |list.nodes| && node == list.nodes[i]
    modifies list, list.nodes`next, list.nodes`prev, list.nodes`freed
    ensures list.Valid() && Adds(list, null)
    ensures old(NoneFreed(list.nodes)) ==> (NoneFreed(list.nodes) <==> rule.Unlink?)
    ensures list.Cells() == if rule.Unlink? then Unlinked(old(list.Cells()), i) else old(list.Cells())
  {
    if rule.Unlink? {
      TakeOut(list, node, i);
    } else {
      Release(list, node);
      assert !Unfreed(list.nodes, i);
    }
  }

  /** ds/hashtable.c:75-80: the node of the key if it is live; an expired one is discarded. */
  method FindLive(list: LinkedList, key: string, now: nat, rule: StaleRule) returns (node: ListNode?, ghost i: nat)
    requires list.Valid()
    modifies list, list.nodes`next, list.nodes`prev, list.nodes`freed
    ensures list.Valid() && Adds(list, null)
    ensures var b, r := old(list.Cells()), Find(old(list.Cells()), key);
      if r < |b| && Expired(b[r], now) then
        && node == null && list.Cells() == (if rule.Unlink? then Unlinked(b, r) else b)
        && (old(NoneFreed(list.nodes)) ==> (NoneFreed(list.nodes) <==> rule.Unlink?))
      else
        && list.Cells() == b && (old(NoneFreed(list.nodes)) ==> NoneFreed(list.nodes)) && list.nodes == old(list.nodes)
        && i == r && node == if r < |list.nodes| then list.nodes[r] else null
  {
    node, i := list.FindNode(key);
    if node != null {
      var expired := node.IsExpired(now);
      if expired {
        Discard(list, node, i, rule);
        node := null;
      }
    }
  }

  /** ds/hashtable.c:81-100. */
  method WriteIn(list: LinkedList, node: ListNode?, ghost i: nat, key: string, str: string, expiry: nat, nx: bool,
                 xx: bool)
    returns (done: bool, ghost written: ListNode?)
    requires list.Valid() && (node != null ==> i < |list.nodes| && node == list.nodes[i])
    modifies list, list.nodes`next, if node == null || nx then {} else {node}
    ensures list.Valid() && Adds(list, written)
    ensures written != null ==> IsText(written, str) && (written == node || fresh(written))
    ensures node != null ==> written == if nx then null else node
    ensures NoneFreed(list.nodes) <==> old(NoneFreed(list.nodes))
    ensures var c := Cell(key, Text(str), expiry);
      if node != null then
        done == !nx && list.Cells() == if nx then old(list.Cells()) else old(list.Cells())[i := c]
      else
        done == !xx && list.Cells() == if xx then old(list.Cells()) else old(list.Cells()) + [c]
  {
    if node != null {
      if nx { return false, null; }
      Overwrite(list, node, i, key, StrVal(str), expiry, Text(str), {});
      done, written := true, node;
    } else {
      if xx { return false, null; }
      written := Append(list, key, StrVal(str), expiry, Text(str), {});
      done := true;
    }
  }

  /** What setWithExpiry leaves, from what it found live. */
  lemma {:induction false} SetExFrom(b: seq<Cell>, mid: seq<Cell>, key: string, str: string, ms: nat, nx: bool,
                                     xx: bool, now: nat, rule: StaleRule, live: bool)
    requires live == (Find(b, key) < |b| && !Expired(b[Find(b, key)], now))
    requires mid == if !live && Find(b, key) < |b| && rule.Unlink? then Unlinked(b, Find(b, key)) else b
    ensures var c := Cell(key, Text(str), Deadline(ms, now));
      SetExB(b, key, str, ms, nx, xx, now, rule) ==
        if live then (if nx then (Refused, mid) else (Done, mid[Find(b, key) := c]))
        else if xx then (Refused, mid) else (Done, mid + [c])
  {
  }

  /** The node whose value setWithExpiry replaces, if there is one. */
  ghost function Target(list: LinkedList, key: string, now: nat, nx: bool): (nodes: set<ListNode>)
    reads list, list.nodes
    ensures forall n {:trigger n in nodes} :: n in nodes ==> n in list.nodes
  {
    var i := Find(list.Cells(), key);
    if i < |list.nodes| && !Expired(list.Cells()[i], now) && !nx then {list.nodes[i]} else {}
  }

  /** setWithExpiry (ds/hashtable.c:75-100).  No freed node is linked afterwards if and only if an
      expired node that is found is unlinked, as it is under the rule Unlink only. */
  method SetExIn(list: LinkedList, key: string, str: string, ms: nat, nx: bool, xx: bool, now: nat, rule: StaleRule)
    returns (done: bool, ghost written: ListNode?)
    requires list.Valid()
    modifies list, list.nodes`next, list.nodes`prev, list.nodes`freed, Target(list, key, now, nx)
    ensures list.Valid() && Adds(list, written)
    ensures written != null ==> IsText(written, str)
    ensures var target := old(Target(list, key, now, nx));
      if target == {} then written == null || fresh(written) else target == {written}
    ensures old(NoneFreed(list.nodes)) ==>
      (NoneFreed(list.nodes) <==> rule.Unlink? || !FreesInPlace(old(list.Cells()), SetEx(key, str, ms, nx, xx), now))
    ensures (if done then Done else Refused, list.Cells()) == SetExB(old(list.Cells()), key, str, ms, nx, xx, now, rule)
  {
    var node; ghost var i;
    node, i := FindLive(list, key, now, rule);
    assert old(Target(list, key, now, nx)) == if node == null || nx then {} else {node};
    var expiry := if ms != 0 then ms + now else DEFAULT_EXPIRY_MS;
    SetExFrom(old(list.Cells()), list.Cells(), key, str, ms, nx, xx, now, rule, node != null);
    done, written := WriteIn(list, node, i, key, str, expiry, nx, xx);
  }

  // ----- the table -----

  method NewBuckets() returns (lists: seq<LinkedList>)
    ensures |lists| == BUCKETS
    ensures forall h {:trigger lists[h]} :: 0 <= h < |lists| ==>
      fresh(lists[h]) && lists[h].Valid() && lists[h].home == h && lists[h].nodes == []
  {
    lists := [];
    var i := 0;
    while i < BUCKETS
      invariant i == |lists| <= BUCKETS
      invariant forall h {:trigger lists[h]} :: 0 <= h < i ==>
        fresh(lists[h]) && lists[h].Valid() && lists[h].home == h && lists[h].nodes == []
    {
      var list := new LinkedList(i);
      lists := lists + [list];
      i := i + 1;
    }
  }

  class HashTable {
    const buckets: seq<LinkedList>
    const hash: string -> nat
    /** The bucket lists, and the nodes that were ever in them. */
    ghost const lists: set<LinkedList>
    ghost var listed: set<ListNode>
    /** The objects that the values are made of; the operations of the table do not touch them. */
    ghost var owned: set<object>

    /** Bucket h is a well-formed list of its own, made of the nodes given. */
    ghost predicate KeptBy(h: nat, nodes: set<ListNode>)
      requires h < |buckets|
      reads lists, nodes`next, nodes`prev, nodes`value, nodes`shows
    {
      && buckets[h] in lists
      && (forall i {:trigger buckets[h].nodes[i]} :: 0 <= i < |buckets[h].nodes| ==> buckets[h].nodes[i] in nodes)
      && buckets[h].home == h && buckets[h].Valid()
    }

    ghost predicate Kept(h: nat)
      requires h < |buckets|
      reads `listed, lists, listed`next, listed`prev, listed`value, listed`shows
    {
      KeptBy(h, listed)
    }

    ghost predicate Valid()
      reads `listed, lists, listed`next, listed`prev, listed`value, listed`shows
    {
      && |buckets| == BUCKETS && Hashing(hash)
      && forall h {:trigger Kept(h)} :: 0 <= h < |buckets| ==> Kept(h)
    }

    ghost function CellsIn(h: nat): seq<Cell>
      requires h < |buckets| && Kept(h)
      reads `listed, lists, listed
    {
      buckets[h].Cells()
    }

    /** The cells of every bucket, in order. */
    ghost function Contents(): (store: seq<seq<Cell>>)
      requires Valid()
      reads `listed, lists, listed
      ensures |store| == BUCKETS
      ensures forall h {:trigger store[h]} :: 0 <= h < BUCKETS ==> store[h] == CellsIn(h)
    {
      var nodes := listed;
      assert forall h :: 0 <= h < BUCKETS ==> Kept(h) && KeptBy(h, nodes);
      seq(BUCKETS, h requires 0 <= h < |buckets| && KeptBy(h, nodes) reads lists, nodes => buckets[h].Cells())
    }

    /** No node of bucket h was freed. */
    ghost predicate AliveIn(h: nat)
      requires h < |buckets| && Kept(h)
      reads `listed, lists, listed
    {
      NoneFreed(buckets[h].nodes)
    }

    /** No node that can be reached was freed. */
    ghost predicate Alive()
      requires Valid()
      reads `listed, lists, listed
    {
      forall h {:trigger AliveIn(h)} :: 0 <= h < BUCKETS ==> AliveIn(h)
    }

    /** Bucket g is made of the given lists and nodes, is as it was in the store, and has no freed
        node if none had. */
    ghost predicate Same(g: nat, store: seq<seq<Cell>>, alive: bool, ls: set<LinkedList>, nodes: set<ListNode>)
      requires g < |buckets| && g < |store|
      reads ls, nodes
    {
      && buckets[g] in ls && buckets[g].home == g
      && (forall i {:trigger buckets[g].nodes[i]} :: 0 <= i < |buckets[g].nodes| ==> buckets[g].nodes[i] in nodes)
      && buckets[g].Valid() && buckets[g].Cells() == store[g] && (alive ==> NoneFreed(buckets[g].nodes))
    }

    /** All buckets but h are. */
    ghost predicate Elsewhere(h: nat, store: seq<seq<Cell>>, alive: bool, ls: set<LinkedList>, nodes: set<ListNode>)
      reads ls, nodes
    {
      && |buckets| == BUCKETS == |store|
      && forall g {:trigger Same(g, store, alive, ls, nodes)} :: 0 <= g < BUCKETS && g != h ==>
        Same(g, store, alive, ls, nodes)
    }

    ghost function NodesOf(h: nat): set<ListNode>
      requires h < |buckets|
      reads buckets[h]
    {
      set n | n in buckets[h].nodes
    }

    /** No two buckets share a node: the others are made of what is not in this one. */
    lemma Shelter(h: nat)
      requires Valid() && h < BUCKETS
      ensures Kept(h) && (Alive() ==> AliveIn(h))
      ensures Elsewhere(h, Contents(), Alive(), lists - {buckets[h]}, listed - NodesOf(h))
    {
      assert Kept(h);
      forall g | 0 <= g < BUCKETS && g != h
        ensures Same(g, Contents(), Alive(), lists - {buckets[h]}, listed - NodesOf(h))
      {
        assert Kept(g) && (Alive() ==> AliveIn(g));
        assert forall i {:trigger buckets[g].nodes[i]} :: 0 <= i < |buckets[g].nodes| ==> buckets[g].nodes[i].home == g;
        assert forall n :: n in NodesOf(h) ==> n.home == h;
      }
    }

    /** The table takes bucket h as an operation on its list has left it, with a new node or none. */
    ghost method Adopt(h: nat, store: seq<seq<Cell>>, alive: bool, nodes: set<ListNode>, node: ListNode?)
      requires h < BUCKETS == |buckets| && Hashing(hash) && nodes <= listed
      requires Elsewhere(h, store, alive, lists - {buckets[h]}, nodes)
      requires buckets[h] in lists && buckets[h].home == h && buckets[h].Valid()
      requires forall i {:trigger buckets[h].nodes[i]} :: 0 <= i < |buckets[h].nodes| ==>
        buckets[h].nodes[i] in listed || buckets[h].nodes[i] == node
      modifies `listed
      ensures Valid() && listed == old(listed) + if node == null then {} else {node}
      ensures Contents() == store[h := buckets[h].Cells()]
      ensures alive ==> (Alive() <==> NoneFreed(buckets[h].nodes))
    {
      listed := listed + if node == null then {} else {node};
      assert Kept(h);
      SameAs(h, store, alive, nodes);
    }

    lemma SameAs(h: nat, store: seq<seq<Cell>>, alive: bool, nodes: set<ListNode>)
      requires h < BUCKETS == |buckets| && Hashing(hash) && nodes <= listed && Kept(h)
      requires Elsewhere(h, store, alive, lists - {buckets[h]}, nodes)
      ensures Valid() && Contents() == store[h := CellsIn(h)]
      ensures alive ==> (Alive() <==> NoneFreed(buckets[h].nodes))
    {
      forall g | 0 <= g < BUCKETS && g != h
        ensures Kept(g) && CellsIn(g) == store[g] && (alive ==> AliveIn(g))
      {
        assert Same(g, store, alive, lists - {buckets[h]}, nodes);
      }
      assert Valid();
      assert AliveIn(h) <==> NoneFreed(buckets[h].nodes);
    }

    /** The node that a key is found at, if there is one. */
    ghost function At(key: string): (nodes: set<ListNode>)
      requires Valid()
      reads `listed, lists, listed
      ensures nodes <= listed
    {
      assert Kept(hash(key));
      Holder(buckets[hash(key)], key)
    }

    /** The node whose value setWithExpiry replaces, if there is one. */
    ghost function TargetOf(key: string, now: nat, nx: bool): (nodes: set<ListNode>)
      requires Valid()
      reads `listed, lists, listed
      ensures nodes <= listed
    {
      assert Kept(hash(key));
      Target(buckets[hash(key)], key, now, nx)
    }

    /** newHashTable (ds/hashtable.c:8-18) with the size the server uses. */
    constructor (hash: string -> nat)
      requires Hashing(hash)
      ensures Valid() && this.hash == hash && fresh(lists) && listed == {} && owned == {}
      ensures Contents() == EmptyStore() && Alive()
    {
      var newLists := NewBuckets();
      this.hash, buckets := hash, newLists;
      lists, listed, owned := set l | l in newLists, {}, {};
      new;
      assert forall h :: 0 <= h < BUCKETS ==> Kept(h) && CellsIn(h) == [] && AliveIn(h);
    }

    /** get (ds/hashtable.c:23-34). */
    method Get(key: string, now: nat) returns (value: Option<ExoVal>, ghost node: ListNode?)
      requires Valid()
      modifies lists, listed`next, listed`prev, listed`freed
      ensures Valid() && (old(Alive()) ==> Alive())
      ensures value == (if node == null then None else Some(node.value)) && (node != null ==> At(key) == {node})
      ensures (Found(if node == null then None else Some(node.shows)), Contents()) ==
        Step(old(Contents()), hash, Store.Get(key), now, Leave)
    {
      var h := hash(key);
      ghost var store, alive, nodes := Contents(), Alive(), listed - NodesOf(h);
      Shelter(h);
      value, node := GetIn(buckets[h], key, now);
      SameAs(h, store, alive, nodes);
    }

    /** set (ds/hashtable.c:39-52). */
    method Set(key: string, value: ExoVal, ghost shows: Value, ghost region: set<object>) returns (ghost node: ListNode)
      requires Valid() && SameKind(value, shows)
      modifies `listed, lists, listed`next, At(key)
      ensures Valid() && (old(Alive()) ==> Alive())
      ensures listed == old(listed) + {node} && (node in old(At(key)) || (fresh(node) && old(At(key)) == {}))
      ensures node.value == value && node.shows == shows && node.region == region && At(key) == {node}
      ensures (Done, Contents()) == Step(old(Contents()), hash, Put(key, shows), 0, Leave)
    {
      var h := hash(key);
      ghost var store, alive, nodes := Contents(), Alive(), listed - NodesOf(h);
      Shelter(h);
      node := PutIn(buckets[h], key, value, shows, region);
      Adopt(h, store, alive, nodes, node);
    }

    /** setFromLoad (ds/hashtable.c:57-69). */
    method SetFromLoad(key: string, str: string, expiry: nat, now: nat) returns (ghost node: ListNode?)
      requires Valid()
      modifies `listed, lists, listed`next
      ensures Valid() && (old(Alive()) ==> Alive()) && listed == old(listed) + (if node == null then {} else {node})
      ensures node != null ==> fresh(node) && IsText(node, str)
      ensures Contents() == Loaded(old(Contents()), hash, key, str, expiry, now)
    {
      var h := hash(key);
      ghost var store, alive, nodes := Contents(), Alive(), listed - NodesOf(h);
      Shelter(h);
      node := LoadIn(buckets[h], key, str, expiry, now);
      Adopt(h, store, alive, nodes, node);
    }

    /** setWithExpiry (ds/hashtable.c:71-101). */
    method SetWithExpiry(key: string, str: string, ms: nat, nx: bool, xx: bool, now: nat, rule: StaleRule)
      returns (done: bool, ghost node: ListNode?)
      requires Valid()
      modifies `listed, lists, listed`next, listed`prev, listed`freed, TargetOf(key, now, nx)
      ensures Valid() && listed == old(listed) + (if node == null then {} else {node})
      ensures node != null ==> IsText(node, str)
      ensures var target := old(TargetOf(key, now, nx));
        if target == {} then node == null || fresh(node) else target == {node}
      ensures old(Alive()) ==>
        (Alive() <==> rule.Unlink? || !FreesInPlace(old(Contents())[hash(key)], SetEx(key, str, ms, nx, xx), now))
      ensures (if done then Done else Refused, Contents()) ==
        Step(old(Contents()), hash, SetEx(key, str, ms, nx, xx), now, rule)
    {
      var h := hash(key);
      ghost var store, alive, nodes := Contents(), Alive(), listed - NodesOf(h);
      Shelter(h);
      done, node := SetExIn(buckets[h], key, str, ms, nx, xx, now, rule);
      Adopt(h, store, alive, nodes, node);
    }

    /** Changing the object a key's value is, in place, is putting the changed value. */
    ghost method Touch(key: string, node: ListNode, shows: Value, region: set<object>)
      requires Valid() && At(key) == {node} && SameKind(node.value, shows)
      modifies node`shows, node`region
      ensures Valid() && (old(Alive()) ==> Alive()) && At(key) == {node} && node.shows == shows && node.region == region
      ensures Contents() == Step(old(Contents()), hash, Put(key, shows), 0, Leave).1
    {
      var h := hash(key);
      var store, alive, nodes := Contents(), Alive(), listed - NodesOf(h);
      Shelter(h);
      TouchIn(buckets[h], node, key, shows, region);
      SameAs(h, store, alive, nodes);
    }

    /** del (ds/hashtable.c:107-118). */
    method Remove(key: string, now: nat) returns (count: nat)
      requires Valid()
      modifies lists, listed`next, listed`prev, listed`freed
      ensures Valid() && (old(Alive()) ==> Alive())
      ensures (Count(count), Contents()) == Step(old(Contents()), hash, Del(key), now, Leave)
    {
      var h := hash(key);
      ghost var store, alive, nodes := Contents(), Alive(), listed - NodesOf(h);
      Shelter(h);
      count := DelIn(buckets[h], key, now);
      SameAs(h, store, alive, nodes);
    }
  }
}
