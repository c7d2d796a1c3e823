/** saveCommand and loadFromDB (ds/commands.c:377-422, 578-789) over the heap's hash table. */
module SaveLoad {
  import opened CStrings
  import opened Decimal
  import opened SortedSet
  import opened Store
  import opened Bitmap
  import opened ExoVal
  import opened LinkedList
  import opened HashTable
  import opened Keyspace
  import opened SkipShape
  import opened SkipList
  import ZCommands
  import opened CommandSpec
  import opened Dump
  import opened Persistence
  import Commands

  // ----- writing -----

  lemma EncodeBoth(a: seq<Record>, b: seq<Record>)
    ensures EncodeAll(a + b) == EncodeAll(a) + EncodeAll(b)
  {
    TextsBoth(Encode, a, b);
  }

  lemma EncodeOne(r: Record)
    ensures EncodeAll([r]) == Encode(r)
  {
    TextsOne(Encode, r);
  }

  /** writeHashMapToFile (ds/commands.c:578-600). */
  method WriteText(file: string, key: string, str: string, expiry: nat) returns (out: string)
    ensures out == file + Encode(TextRecord(key, str, Digits(expiry)))
  {
    out := Number(BULKSTRING);
    out := out + Field(key);
    out := out + Field(str);
    out := out + Field(Digits(expiry));
    out := file + out;
  }

  /** writeHBitMapToFile (ds/commands.c:602-619). */
  method WriteBits(file: string, key: string, words: seq<bv32>) returns (out: string)
    ensures out == file + Encode(BitsRecord(key, words))
  {
    out := Number(BITMAP);
    out := out + Field(key);
    out := out + (Number(|words|) + WordBytes(words));
    out := file + out;
  }

  lemma NextRecord(file: string, rs: seq<Record>, r: Record)
    ensures file + EncodeAll(rs + [r]) == file + EncodeAll(rs) + Encode(r)
  {
    EncodeBoth(rs, [r]);
    EncodeOne(r);
    Assoc(file, EncodeAll(rs), EncodeAll([r]));
  }

  method WriteScore(file: string, key: string, score: string, member: string) returns (out: string)
    ensures out == file + Encode(ScoreRecord(key, score, member))
  {
    out := Number(SORTED_SET);
    out := out + Field(key);
    out := out + Field(score);
    out := out + Field(member);
    out := file + out;
  }

  /** What the loop has written when it comes to a node. */
  ghost predicate WrittenTo(list: SkipList, file: string, key: string, k: nat, out: string, node: SkipNode?)
    requires list.Valid()
    reads list, list.nodes
  {
    && k <= |list.entries| && out == file + EncodeAll(ScoreRecords(key, list.entries[..k]))
    && node == if k < |list.entries| then list.towers[k + 1][0] else null
  }

  /** One round of the loop of writeSkiplistToFile. */
  method WriteNode(list: SkipList, node: SkipNode, key: string, before: string, ghost file: string, ghost k: nat)
    returns (out: string, next: SkipNode?)
    requires list.Valid() && WrittenTo(list, file, key, k, before, node)
    ensures k < |list.entries| && WrittenTo(list, file, key, k + 1, out, next)
  {
    ZCommands.BottomNode(list, k + 1);
    var score := DoubleToString(node.score);
    ScoreRecordsNext(key, list.entries, k);
    NextRecord(file, ScoreRecords(key, list.entries[..k]), ScoreRecord(key, score, node.key));
    out := WriteScore(before, key, score, node.key);
    next := node.next;
  }

  /** writeSkiplistToFile (ds/commands.c:621-655): down the sentinels and along the bottom level. */
  method WriteScores(file: string, key: string, list: SkipList) returns (out: string)
    requires list.Valid()
    ensures out == file + EncodeAll(ScoreRecords(key, list.entries))
  {
    out := file;
    var node: SkipNode? := ZCommands.BottomSentinel(list);
    ZCommands.FirstNode(list);
    node := node.next;
    ghost var k := 0;
    assert list.entries[..0] == [] && file + [] == file;
    while node != null
      invariant WrittenTo(list, file, key, k, out, node)
      decreases |list.entries| - k
    {
      out, node := WriteNode(list, node, key, out, file, k);
      k := k + 1;
    }
    assert list.entries[..k] == list.entries;
  }

  /** The switch of saveCommand's loop. */
  method WriteCell(file: string, node: ListNode) returns (out: string)
    requires Represents(node.value, node.shows, node.region)
    ensures out == file + EncodeAll(CellRecords(node.AsCell()))
  {
    match node.value {
      case StrVal(str) =>
        EncodeOne(TextRecord(node.key, str, Digits(node.expiry)));
        out := WriteText(file, node.key, str, node.expiry);
      case BitsVal(bits) =>
        EncodeOne(BitsRecord(node.key, bits.mem[..]));
        out := WriteBits(file, node.key, bits.mem[..]);
      case SetVal(list) =>
        out := WriteScores(file, node.key, list);
    }
  }

  lemma NextCellWritten(file: string, b: seq<Cell>, k: nat)
    requires k < |b|
    ensures file + EncodeAll(BucketRecords(b[..k + 1])) ==
      file + EncodeAll(BucketRecords(b[..k])) + EncodeAll(CellRecords(b[k]))
  {
    assert b[..k + 1][..k] == b[..k];
    EncodeBoth(BucketRecords(b[..k]), CellRecords(b[k]));
  }

  ghost predicate NodeHolds(nodes: seq<ListNode>, i: nat, owned: set<object>)
    requires i < |nodes|
    reads nodes, owned
  {
    Holds(nodes[i], owned)
  }

  /** One node of a bucket, and the next one. */
  method WriteListNode(file: string, list: LinkedList, node: ListNode, ghost k: nat, ghost owned: set<object>)
    returns (out: string, next: ListNode?)
    requires list.Valid() && k < |list.nodes| && node == list.nodes[k] && NodeHolds(list.nodes, k, owned)
    ensures |list.Cells()| == |list.nodes| && out == file + EncodeAll(CellRecords(list.Cells()[k]))
    ensures next == if k + 1 < |list.nodes| then list.nodes[k + 1] else null
  {
    hide EncodeAll, CellRecords;
    list.NextOf(k);
    out := WriteCell(file, node);
    next := node.next;
  }

  /** One bucket, node by node. */
  method WriteBucket(file: string, list: LinkedList, ghost owned: set<object>) returns (out: string)
    requires list.Valid()
    requires forall i {:trigger NodeHolds(list.nodes, i, owned)} :: 0 <= i < |list.nodes| ==>
      NodeHolds(list.nodes, i, owned)
    ensures out == file + EncodeAll(BucketRecords(list.Cells()))
  {
    hide EncodeAll, CellRecords, Holds;
    out := file;
    var node := list.head;
    ghost var b, k := list.Cells(), 0;
    assert b[..0] == [] && file + EncodeAll([]) == file by { NothingEncoded(file); }
    while node != null
      invariant 0 <= k <= |b| == |list.nodes| && node == if k < |b| then list.nodes[k] else null
      invariant out == file + EncodeAll(BucketRecords(b[..k]))
      decreases |b| - k
    {
      assert NodeHolds(list.nodes, k, owned);
      NextCellWritten(file, b, k);
      out, node := WriteListNode(out, list, node, k, owned);
      k := k + 1;
    }
    assert b[..k] == b;
  }

  lemma NothingEncoded(file: string)
    ensures file + EncodeAll([]) == file
  {
    assert file + [] == file;
  }

  lemma NextBucketWritten(store: seq<seq<Cell>>, h: nat)
    requires h < |store|
    ensures EncodeAll(StoreRecords(store[..h + 1])) ==
      EncodeAll(StoreRecords(store[..h])) + EncodeAll(BucketRecords(store[h]))
  {
    assert store[..h + 1][..h] == store[..h];
    EncodeBoth(StoreRecords(store[..h]), BucketRecords(store[h]));
  }

  lemma BucketHolds(table: HashTable, h: nat)
    requires Sound(table) && h < BUCKETS
    ensures table.Kept(h) && table.Contents()[h] == table.CellsIn(h)
    ensures var nodes := table.buckets[h].nodes;
      forall i {:trigger NodeHolds(nodes, i, table.owned)} :: 0 <= i < |nodes| ==> NodeHolds(nodes, i, table.owned)
  {
    assert table.Kept(h);
  }

  /** saveCommand (ds/commands.c:377-414). */
  method SaveCommand(table: HashTable) returns (file: string)
    requires Sound(table)
    ensures file == FileOf(table.Contents())
  {
    file := [];
    ghost var store := table.Contents();
    for i := 0 to BUCKETS
      invariant file == EncodeAll(StoreRecords(store[..i]))
    {
      NextBucketWritten(store, i);
      BucketHolds(table, i);
      file := WriteBucket(file, table.buckets[i], table.owned);
    }
    assert store[..BUCKETS] == store;
  }

  // ----- reading -----

  /** A record whose numbers and members the C code reads in full and without overflow. */
  predicate RecordReadable(r: Record) {
    match r
    case TextRecord(_, _, expiry) => NumberFits(expiry)
    case BitsRecord(_, _) => true
    case ScoreRecord(_, _, _) => ZSpec.ZaddFits(ZaddArgs(r))
  }

  /** loadHashMapEntry, loadSkiplistEntry and loadBitmapEntry (ds/commands.c:698-789), once their
      fields are read. */
  method LoadRecord(table: HashTable, r: Record, now: nat, heights: seq<nat>, rule: TieRule) returns (ok: bool)
    requires Sound(table) && RecordReadable(r)
    requires |heights| >= 4 && forall i :: 0 <= i < |heights| ==> heights[i] < MAX_LEVEL
    requires rule.NextKey? || SafeRecord(table.Contents(), table.hash, r, now)
    modifies table, table.lists, table.listed, table.owned
    ensures Sound(table) && (old(table.Alive()) ==> table.Alive())
    ensures fresh(table.listed - old(table.listed)) && fresh(table.owned - old(table.owned))
    ensures (ok, table.Contents()) == Apply(old(table.Contents()), table.hash, r, now)
  {
    match r {
      case TextRecord(key, str, expiry) =>
        var n := StringToLongLong(expiry);
        Keyspace.LoadText(table, key, str, if n == -1 then ULONG_MAX else n, now);
        ok := true;
      case BitsRecord(key, words) =>
        LoadBitmap(table, key, words);
        ok := true;
      case ScoreRecord(_, _, _) =>
        var reply := Commands.ZaddCommand(table, ZaddArgs(r), now, heights, rule);
        ok := reply == ZSpec.Integer(1);
    }
  }

  /** loadBitmap (ds/bitmap.c:75-97). */
  method LoadBitmap(table: HashTable, key: string, words: seq<bv32>)
    requires Sound(table)
    modifies table, table.lists, table.listed, table.owned
    ensures Sound(table) && (old(table.Alive()) ==> table.Alive())
    ensures fresh(table.listed - old(table.listed)) && fresh(table.owned - old(table.owned))
    ensures table.Contents() == Step(old(table.Contents()), table.hash, Put(key, Bits(words)), 0, Leave).1
  {
    hide Step, Sound;
    var bits := new BitmapNode.Of(words);
    ghost var _ := Commands.PutNew(table, key, BitsVal(bits), Bits(words), {bits, bits.mem});
  }

  /** What is read and done, and what is still to read. */
  ghost predicate Halfway(load: Loader, store: seq<seq<Cell>>, rs: seq<Record>, k: nat, rest: string,
                          now: seq<seq<Cell>>) {
    && k <= |rs| && ReadAll(rest) == Some(rs[k..])
    && ApplyAll(load, store, rs[..k]) == (true, now)
  }

  lemma HalfwayReads(load: Loader, store: seq<seq<Cell>>, rs: seq<Record>, k: nat, rest: string, now: seq<seq<Cell>>)
    requires Halfway(load, store, rs, k, rest, now) && rest != []
    ensures ReadRecord(rest).Front?
    ensures var Front(front, next) := ReadRecord(rest);
      && |front| <= 1
      && (front == [] ==> Halfway(load, store, rs, k, next, now))
      && (front != [] ==> k < |rs| && front[0] == rs[k] && ReadAll(next) == Some(rs[k + 1..]))
  {
    var Front(front, next) := ReadRecord(rest);
    var more := ReadAll(next).value;
    assert rs[k..] == front + more;
    if front == [] {
      assert front + more == more;
    } else {
      assert rs[k..][0] == front[0] && rs[k..][1..] == more == rs[k + 1..];
    }
  }

  lemma {:induction false} HalfwayNext(load: Loader, store: seq<seq<Cell>>, rs: seq<Record>, k: nat,
                                       now: seq<seq<Cell>>)
    requires k < |rs| && ApplyAll(load, store, rs[..k]) == (true, now)
    ensures ApplyAll(load, store, rs[..k + 1]) == load(now, rs[k])
  {
    assert rs[..k + 1][..k] == rs[..k];
  }

  lemma {:induction false} StopsThere(load: Loader, store: seq<seq<Cell>>, rs: seq<Record>, k: nat)
    requires k <= |rs| && !ApplyAll(load, store, rs[..k]).0
    ensures ApplyAll(load, store, rs) == ApplyAll(load, store, rs[..k])
    decreases |rs|
  {
    if k == |rs| {
      assert rs[..k] == rs;
    } else {
      var front := rs[..|rs| - 1];
      assert front[..k] == rs[..k];
      StopsThere(load, store, front, k);
    }
  }

  /** Before the first record, and after the last. */
  lemma {:induction false} HalfwayEnds(load: Loader, store: seq<seq<Cell>>, rs: seq<Record>, k: nat,
                                       now: seq<seq<Cell>>)
    ensures k == 0 && now == store ==>
      forall file :: ReadAll(file) == Some(rs) ==> Halfway(load, store, rs, k, file, now)
    ensures Halfway(load, store, rs, k, [], now) ==> ApplyAll(load, store, rs) == (true, now)
  {
    assert rs[0..] == rs && rs[..0] == [];
    if Halfway(load, store, rs, k, [], now) {
      assert rs[k..] == [];
      assert rs[..k] == rs;
    }
  }

  /** A record taken: one more is done; a record refused: that is how it ends. */
  lemma {:induction false} RecordDone(load: Loader, store: seq<seq<Cell>>, rs: seq<Record>, k: nat, next: string,
                   before: seq<seq<Cell>>, ok: bool, after: seq<seq<Cell>>)
    requires k < |rs| && ApplyAll(load, store, rs[..k]) == (true, before)
    requires ReadAll(next) == Some(rs[k + 1..]) && load(before, rs[k]) == (ok, after)
    ensures ok ==> Halfway(load, store, rs, k + 1, next, after)
    ensures !ok ==> ApplyAll(load, store, rs) == (false, after)
  {
    HalfwayNext(load, store, rs, k, before);
    if !ok { StopsThere(load, store, rs, k + 1); }
  }

  /** A record that comes before the end of a load that succeeds is taken. */
  lemma {:induction false} TakenOnTheWay(load: Loader, store: seq<seq<Cell>>, rs: seq<Record>, k: nat,
                                         before: seq<seq<Cell>>, hash: string -> nat, now: nat, rule: TieRule)
    requires k < |rs| && ApplyAll(load, store, rs[..k]) == (true, before) && |before| == BUCKETS
    requires Hashing(hash) && Loads(load, hash, now, rule) && (rule.NextKey? || ApplyAll(load, store, rs).0)
    ensures load(before, rs[k]) == Apply(before, hash, rs[k], now)
    ensures rule.NextKey? || SafeRecord(before, hash, rs[k], now)
  {
    assert LoadsAt(load, hash, now, rule, before, rs[k]);
    HalfwayNext(load, store, rs, k, before);
    if !ApplyAll(load, store, rs[..k + 1]).0 { StopsThere(load, store, rs, k + 1); }
  }

  /** Heights for the towers of one record. */
  predicate Heights(heights: seq<nat>) {
    |heights| >= 4 && forall i :: 0 <= i < |heights| ==> heights[i] < MAX_LEVEL
  }

  /** One turn of loadFromDB's loop. */
  method LoadRound(table: HashTable, rest: string, now: nat, heights: seq<seq<nat>>, rule: TieRule, ghost load: Loader,
                   ghost store: seq<seq<Cell>>, ghost rs: seq<Record>, k: nat)
    returns (ok: bool, next: string, k': nat)
    requires Sound(table) && rest != [] && Halfway(load, store, rs, k, rest, table.Contents())
    requires AllOk(RecordReadable, rs) && Loads(load, table.hash, now, rule) && |rs| <= |heights|
    requires forall i :: 0 <= i < |heights| ==> Heights(heights[i])
    requires rule.NextKey? || ApplyAll(load, store, rs).0
    modifies table, table.lists, table.listed, table.owned
    ensures Sound(table) && (old(table.Alive()) ==> table.Alive())
    ensures fresh(table.listed - old(table.listed)) && fresh(table.owned - old(table.owned))
    ensures |next| < |rest| && k' <= k + 1
    ensures ok ==> Halfway(load, store, rs, k', next, table.Contents())
    ensures !ok ==> ApplyAll(load, store, rs) == (false, table.Contents())
  {
    HalfwayReads(load, store, rs, k, rest, table.Contents());
    var round := ReadRecord(rest);
    ok, next, k' := true, round.rest, k;
    if |round.value| > 0 {
      ghost var before := table.Contents();
      assert OkAt(RecordReadable, rs, k);
      TakenOnTheWay(load, store, rs, k, before, table.hash, now, rule);
      ok := LoadRecord(table, round.value[0], now, heights[k], rule);
      RecordDone(load, store, rs, k, next, before, ok, table.Contents());
      k' := k + 1;
    }
  }

  /** loadFromDB (ds/commands.c:657-696) on a file that does not end in the middle of a record: the
      records one by one, until one fails.  With insertion's own tie-break, for files whose sorted
      sets it puts in order at any heights. */
  method LoadFromDb(table: HashTable, file: string, now: nat, heights: seq<seq<nat>>, rule: TieRule, ghost load: Loader)
    returns (ok: bool)
    requires Sound(table) && ReadAll(file).Some? && AllOk(RecordReadable, ReadAll(file).value)
    requires Loads(load, table.hash, now, rule) && |ReadAll(file).value| <= |heights|
    requires forall i :: 0 <= i < |heights| ==> Heights(heights[i])
    requires rule.NextKey? || LoadFile(load, table.Contents(), file).value.0
    modifies table, table.lists, table.listed, table.owned
    ensures Sound(table)
    ensures LoadFile(load, old(table.Contents()), file) == Some((ok, table.Contents()))
  {
    var rest := file;
    ghost var store, rs := table.Contents(), ReadAll(file).value;
    var k: nat := 0;
    HalfwayEnds(load, store, rs, 0, store);
    while rest != []
      invariant Sound(table) && fresh(table.listed - old(table.listed)) && fresh(table.owned - old(table.owned))
      invariant Halfway(load, store, rs, k, rest, table.Contents())
      decreases |rest|
    {
      ok, rest, k := LoadRound(table, rest, now, heights, rule, load, store, rs, k);
      if !ok { return; }
    }
    HalfwayEnds(load, store, rs, k, table.Contents());
    ok := true;
  }

  // ----- both -----

  lemma {:induction false} DigitsReadable(n: nat)
    requires n <= LL_MAX
    ensures NumberFits(Digits(n))
  {
    var d := Digits(n);
    assert Plain(d) by {
      assert forall i :: 0 <= i < |d| ==> IsDigit(d[i]);
    }
    forall i | 0 <= i < |d|
      ensures DigitFits(d, i)
    {
      NatOfPrefix(d, i + 1);
    }
  }

  lemma EntryReadable(key: string, s: seq<Entry>, i: nat)
    requires WellFormed(s) && i < |s| && StorableEntry(s[i])
    ensures EntryOk(RecordReadable, key, s, i)
  {
    InsertNext(s, i);
    ReplayedZadd(s[..i], key, s[i]);
  }

  lemma CellReadable(c: Cell)
    requires Storable(c)
    ensures CellOk(RecordReadable, c)
  {
    match c.value
    case Text(_) => DigitsReadable(c.expiry);
    case Bits(_) =>
    case Scores(s) =>
      forall i | 0 <= i < |s|
        ensures EntryOk(RecordReadable, c.key, s, i)
      {
        EntryReadable(c.key, s, i);
      }
      assert s[..|s|] == s;
      ScoresOk(RecordReadable, c.key, s, |s|);
  }

  lemma {:induction false} StoreReadable(store: seq<seq<Cell>>)
    requires forall g {:trigger store[g]} :: 0 <= g < |store| ==> AllStorable(store[g])
    ensures AllOk(RecordReadable, StoreRecords(store))
  {
    forall g, i | 0 <= g < |store| && 0 <= i < |store[g]|
      ensures CellOk(RecordReadable, store[g][i])
    {
      assert AllStorable(store[g]);
      CellReadable(store[g][i]);
    }
    StoreOk(RecordReadable, store, |store|);
    assert store[..|store|] == store;
  }

  lemma {:induction false} SavedLoads(store: seq<seq<Cell>>, hash: string -> nat, now: nat, rule: TieRule)
    requires WellKept(store, hash) && forall g {:trigger store[g]} :: 0 <= g < BUCKETS ==> AllStorable(store[g])
    requires SafeStore(store, BUCKETS, rule)
    ensures ReadAll(FileOf(store)) == Some(StoreRecords(store)) && AllOk(RecordReadable, StoreRecords(store))
    ensures LoadFile(LoaderOf(hash, now, rule), EmptyStore(), FileOf(store)) == Some((true, KeptBuckets(store, now)))
  {
    FileReads(store);
    StoreReadable(store);
    LoaderLoads(hash, now, rule);
    LoadUndoesSave(LoaderOf(hash, now, rule), store, hash, now, rule);
  }

  /** A new table, loaded from a file. */
  method StartWith(hash: string -> nat, file: string, now: nat, heights: seq<seq<nat>>, rule: TieRule,
                   ghost load: Loader)
    returns (ok: bool, loaded: HashTable)
    requires Hashing(hash) && ReadAll(file).Some? && AllOk(RecordReadable, ReadAll(file).value)
    requires Loads(load, hash, now, rule) && |ReadAll(file).value| <= |heights|
    requires forall i :: 0 <= i < |heights| ==> Heights(heights[i])
    requires rule.NextKey? || LoadFile(load, EmptyStore(), file).value.0
    ensures Sound(loaded) && fresh(loaded) && loaded.hash == hash
    ensures LoadFile(load, EmptyStore(), file) == Some((ok, loaded.Contents()))
  {
    loaded := new HashTable(hash);
    ok := LoadFromDb(loaded, file, now, heights, rule, load);
  }

  /** A server is shut down with SAVE and started again with LOAD: each bucket of the new table holds
      what the old one held, in the same order, without the strings that expired by then, whatever
      the heights of the new towers.  With removal's tie-break in insertion always; as shipped, with
      insertion's own one, when in every sorted set the ties are above the leads
      (Persistence.SafeCell). */
  method Restart(table: HashTable, now: nat, heights: seq<seq<nat>>, rule: TieRule)
    returns (ok: bool, loaded: HashTable)
    requires Sound(table) && WellKept(table.Contents(), table.hash)
    requires forall g {:trigger table.Contents()[g]} :: 0 <= g < BUCKETS ==> AllStorable(table.Contents()[g])
    requires SafeStore(table.Contents(), BUCKETS, rule)
    requires |StoreRecords(table.Contents())| <= |heights| && forall i :: 0 <= i < |heights| ==> Heights(heights[i])
    ensures Sound(loaded) && fresh(loaded) && loaded.hash == table.hash
    ensures ok && loaded.Contents() == KeptBuckets(table.Contents(), now)
  {
    SavedLoads(table.Contents(), table.hash, now, rule);
    LoaderLoads(table.hash, now, rule);
    var file := SaveCommand(table);
    ok, loaded := StartWith(table.hash, file, now, heights, rule, LoaderOf(table.hash, now, rule));
  }
}
