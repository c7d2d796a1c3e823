/** The hash table with the objects its values are: bitmaps and skip lists, each held by one node. */
module Keyspace {
  import opened Bitmap
  import opened Decimal
  import opened ExoVal
  import opened Store
  import opened LinkedList
  import opened HashTable
  import opened SkipShape
  import opened SortedSet
  import opened SkipList
  import ZSpec
  import ZCommands

  /** The value of a node is well-formed and made of objects of ours. */
  ghost predicate Holds(n: ListNode, owned: set<object>)
    reads n`value, n`shows, n`region, owned
  {
    n.region <= owned && Represents(n.value, n.shows, n.region)
  }

  ghost predicate Separate(m: ListNode, n: ListNode)
    reads m`region, n`region
  {
    m.region !! n.region
  }

  /** Every node holds its value, and no two share an object. */
  ghost predicate SoundOver(nodes: set<ListNode>, owned: set<object>)
    reads nodes`value, nodes`shows, nodes`region, owned
  {
    && (forall n {:trigger Holds(n, owned)} :: n in nodes ==> Holds(n, owned))
    && (forall m, n {:trigger Separate(m, n)} :: m in nodes && n in nodes && m != n ==> Separate(m, n))
  }

  /** None of these objects is the table, one of its lists or one of its nodes. */
  ghost predicate Outside(table: HashTable, region: set<object>)
    reads table`listed
  {
    && table !in region
    && (forall l {:trigger l in table.lists} :: l in table.lists ==> l !in region)
    && (forall n {:trigger n in table.listed} :: n in table.listed ==> n !in region)
  }

  ghost predicate Sound(table: HashTable)
    reads table`listed, table`owned, table.lists
    reads table.listed`next, table.listed`prev, table.listed`value, table.listed`shows, table.listed`region, table.owned
  {
    table.Valid() && Outside(table, table.owned) && SoundOver(table.listed, table.owned)
  }

  lemma SoundIsValid(table: HashTable)
    requires Sound(table)
    ensures table.Valid() && WellHashed(table.Contents(), table.hash)
  {
  }

  lemma Fewer(nodes: set<ListNode>, fewer: set<ListNode>, owned: set<object>)
    requires SoundOver(nodes, owned) && fewer <= nodes
    ensures SoundOver(fewer, owned)
  {
  }

  /** One more node with a value of its own. */
  lemma OneMore(nodes: set<ListNode>, node: ListNode, owned: set<object>)
    requires SoundOver(nodes, owned) && node.region !! owned && Represents(node.value, node.shows, node.region)
    ensures SoundOver(nodes + {node}, owned + node.region)
  {
    forall n | n in nodes
      ensures Holds(n, owned + node.region) && Separate(n, node) && Separate(node, n)
    {
      assert Holds(n, owned);
    }
  }

  /** get, on a sound table. */
  method Fetch(table: HashTable, key: string, now: nat) returns (value: Option<ExoVal>, ghost node: ListNode?)
    requires Sound(table)
    modifies table.lists, table.listed`next, table.listed`prev, table.listed`freed
    ensures Sound(table) && (old(table.Alive()) ==> table.Alive())
    ensures value == if node == null then None else Some(node.value)
    ensures node != null ==> table.At(key) == {node} && Holds(node, table.owned)
    ensures (Found(if node == null then None else Some(node.shows)), table.Contents()) ==
      Step(old(table.Contents()), table.hash, Get(key), now, Leave)
  {
    value, node := table.Get(key, now);
    assert node != null ==> node in table.At(key) && node in table.listed;
  }

  /** The table's values take over new objects. */
  ghost method TakeOver(table: HashTable, region: set<object>)
    requires table.Valid() && Outside(table, table.owned + region) && SoundOver(table.listed, table.owned + region)
    modifies table`owned
    ensures Sound(table) && table.owned == old(table.owned) + region
    ensures table.Contents() == old(table.Contents()) && table.Alive() == old(table.Alive())
    ensures forall key :: table.At(key) == old(table.At(key))
  {
    table.owned := table.owned + region;
  }

  /** set, with the objects of a value that nothing else has. */
  method Keep(table: HashTable, key: string, value: ExoVal, ghost shows: Value, ghost region: set<object>)
    returns (ghost node: ListNode)
    requires Sound(table) && Represents(value, shows, region) && SameKind(value, shows)
    requires Outside(table, region) && region !! table.owned
    modifies table`listed, table`owned, table.lists, table.listed`next, table.At(key)
    ensures Sound(table) && (old(table.Alive()) ==> table.Alive())
    ensures table.owned == old(table.owned) + region && fresh(table.listed - old(table.listed))
    ensures table.At(key) == {node} && node.value == value && node.shows == shows && node.region == region
    ensures table.Contents() == Step(old(table.Contents()), table.hash, Put(key, shows), 0, Leave).1
  {
    hide Step;
    ghost var rest := table.listed - table.At(key);
    Fewer(table.listed, rest, table.owned);
    node := table.Set(key, value, shows, region);
    OneMore(rest, node, table.owned);
    assert table.listed == rest + {node};
    TakeOver(table, region);
  }

  /** del, on a sound table. */
  method Drop(table: HashTable, key: string, now: nat) returns (count: nat)
    requires Sound(table)
    modifies table.lists, table.listed`next, table.listed`prev, table.listed`freed
    ensures Sound(table) && (old(table.Alive()) ==> table.Alive())
    ensures (Count(count), table.Contents()) == Step(old(table.Contents()), table.hash, Del(key), now, Leave)
  {
    count := table.Remove(key, now);
  }

  lemma TextHolds(node: ListNode, str: string)
    requires IsText(node, str)
    ensures node.region == {} && Represents(node.value, node.shows, node.region)
  {
  }

  /** setWithExpiry, on a sound table. */
  method KeepText(table: HashTable, key: string, str: string, ms: nat, nx: bool, xx: bool, now: nat, rule: StaleRule)
    returns (done: bool)
    requires Sound(table)
    modifies table`listed, table.lists, table.listed
    ensures Sound(table) && fresh(table.listed - old(table.listed))
    ensures old(table.Alive()) ==> (table.Alive() <==>
      rule.Unlink? || !FreesInPlace(old(table.Contents())[table.hash(key)], SetEx(key, str, ms, nx, xx), now))
    ensures (if done then Done else Refused, table.Contents()) ==
      Step(old(table.Contents()), table.hash, SetEx(key, str, ms, nx, xx), now, rule)
  {
    ghost var target := table.TargetOf(key, now, nx);
    ghost var rest := table.listed - target;
    Fewer(table.listed, rest, table.owned);
    ghost var node;
    done, node := table.SetWithExpiry(key, str, ms, nx, xx, now, rule);
    if node != null {
      TextHolds(node, str);
      OneMore(rest, node, table.owned);
      assert table.owned + {} == table.owned && table.listed == rest + {node};
    }
  }

  /** setFromLoad, on a sound table. */
  method LoadText(table: HashTable, key: string, str: string, expiry: nat, now: nat)
    requires Sound(table)
    modifies table`listed, table.lists, table.listed
    ensures Sound(table) && fresh(table.listed - old(table.listed)) && (old(table.Alive()) ==> table.Alive())
    ensures table.Contents() == Loaded(old(table.Contents()), table.hash, key, str, expiry, now)
  {
    ghost var rest := table.listed;
    ghost var node := table.SetFromLoad(key, str, expiry, now);
    if node != null {
      TextHolds(node, str);
      OneMore(rest, node, table.owned);
      assert table.owned + {} == table.owned;
    }
  }

  /** The object of a node is lent: all the rest holds without its region. */
  ghost predicate Lent(table: HashTable, key: string, node: ListNode, region: set<object>, store: seq<seq<Cell>>,
                       alive: bool)
    reads table`listed, table`owned, table.lists, table.listed, table.owned - region
  {
    && table.Valid() && table.At(key) == {node} && node in table.listed && node.region == region <= table.owned
    && Outside(table, table.owned) && SoundOver(table.listed - {node}, table.owned - region)
    && table.Contents() == store && (alive ==> table.Alive())
  }

  lemma Lend(table: HashTable, key: string, node: ListNode)
    requires Sound(table) && table.At(key) == {node} && node in table.listed
    ensures Holds(node, table.owned)
    ensures Lent(table, key, node, node.region, table.Contents(), table.Alive())
  {
    forall n | n in table.listed - {node}
      ensures Holds(n, table.owned - node.region)
    {
      assert Holds(n, table.owned) && Separate(n, node);
    }
  }

  /** The object was changed, and the table holds what it now is. */
  ghost method Return(table: HashTable, key: string, node: ListNode, region: set<object>, store: seq<seq<Cell>>,
                      alive: bool, shows: Value, region': set<object>)
    requires Lent(table, key, node, region, store, alive)
    requires region <= region' && region' !! table.owned - region && Outside(table, region')
    requires SameKind(node.value, shows) && Represents(node.value, shows, region')
    modifies table`owned, node`shows, node`region
    ensures Sound(table) && (alive ==> table.Alive()) && table.owned == old(table.owned) + region'
    ensures table.Contents() == Step(store, table.hash, Put(key, shows), 0, Leave).1
  {
    var others, rest := table.owned - region, table.listed - {node};
    table.Touch(key, node, shows, region');
    OneMore(rest, node, others);
    assert rest + {node} == table.listed && others + region' == table.owned + region';
    TakeOver(table, region');
  }

  /** Heights for a ZADD of these arguments, and pairs that the tie-break can take. */
  ghost predicate Suits(s: seq<Entry>, args: seq<string>, heights: seq<nat>, rule: TieRule) {
    && |args| >= 4 && ZSpec.ZaddFits(args)
    && |args| <= |heights| && (forall i :: 0 <= i < |heights| ==> heights[i] < MAX_LEVEL)
    && (rule.NextKey? || ZSpec.SafeRequest(s, ZSpec.RequestOf(args)))
  }

  ghost predicate Zadded(s: seq<Entry>, args: seq<string>, reply: ZSpec.Reply, s': seq<Entry>) {
    |args| >= 4 && (reply, s') == ZSpec.ZaddReply(s, args)
  }

  /** addToSortedSet on a skip list made of the objects of a region. */
  method AddLent(list: SkipList, ghost s: seq<Entry>, ghost region: set<object>, args: seq<string>,
                 heights: seq<nat>, rule: TieRule)
    returns (reply: ZSpec.Reply, ghost region': set<object>)
    requires Represents(SetVal(list), Scores(s), region) && Suits(s, args, heights, rule)
    modifies region
    ensures Represents(SetVal(list), Scores(list.entries), region') && region <= region' && fresh(region' - region)
    ensures Zadded(s, args, reply, list.entries) && list.size == |list.entries|
  {
    reply := ZCommands.Zadd(list, args, heights, rule);
    region' := region + list.nodes;
  }

  /** addToSortedSet on the skip list of a key. */
  method AddToList(table: HashTable, key: string, ghost node: ListNode, list: SkipList, ghost s: seq<Entry>,
                   args: seq<string>, heights: seq<nat>, rule: TieRule)
    returns (reply: ZSpec.Reply)
    requires Sound(table) && table.At(key) == {node} && node in table.listed
    requires node.value == SetVal(list) && node.shows == Scores(s)
    requires Suits(s, args, heights, rule)
    modifies table`owned, table.owned, node`shows, node`region
    ensures Sound(table) && (old(table.Alive()) ==> table.Alive()) && fresh(table.owned - old(table.owned))
    ensures Zadded(s, args, reply, list.entries) && list.size == |list.entries|
    ensures table.Contents() == Step(old(table.Contents()), table.hash, Put(key, Scores(list.entries)), 0, Leave).1
  {
    Lend(table, key, node);
    ghost var store, alive, region := table.Contents(), table.Alive(), node.region;
    ghost var region';
    reply, region' := AddLent(list, s, region, args, heights, rule);
    Return(table, key, node, region, store, alive, Scores(list.entries), region');
  }

  /** setBit on the bitmap of a key. */
  method SetBitOf(table: HashTable, key: string, ghost node: ListNode, bits: BitmapNode, ghost words: seq<bv32>,
                  pos: nat, bit: bool)
    returns (previous: bool)
    requires Sound(table) && table.At(key) == {node} && node in table.listed
    requires node.value == BitsVal(bits) && node.shows == Bits(words)
    modifies table`owned, table.owned, node`shows, node`region
    ensures Sound(table) && (old(table.Alive()) ==> table.Alive()) && fresh(table.owned - old(table.owned))
    ensures previous == Bit(words, pos)
    ensures table.Contents() ==
      Step(old(table.Contents()), table.hash, Put(key, Bits(WithBit(words, pos, bit))), 0, Leave).1
  {
    Lend(table, key, node);
    ghost var store, alive, region := table.Contents(), table.Alive(), node.region;
    previous := bits.SetBit(pos, bit);
    Return(table, key, node, region, store, alive, Bits(bits.Words()), region + {bits.mem});
  }
}
