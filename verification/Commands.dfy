/** The command functions of ds/commands.c over the heap's hash table. */
module Commands {
  import opened Decimal
  import opened SortedSet
  import opened Bitmap
  import opened Store
  import opened ArgList
  import opened ExoVal
  import opened LinkedList
  import opened HashTable
  import opened Keyspace
  import opened SkipShape
  import opened SkipList
  import ZCommands
  import opened CommandSpec
  import opened CommandRuns

  predicate ReadsOnly(cmd: Command) {
    cmd.GET? || cmd.GETBIT? || cmd.ZCARD? || cmd.ZCOUNT? || cmd.ZRANGE?
  }

  /** The commands that only read reply by what they find. */
  lemma ExecReadsOnly(store: seq<seq<Cell>>, hash: string -> nat, cmd: Command, now: nat)
    requires WellHashed(store, hash) && ReadsOnly(cmd) && Early(cmd).None?
    ensures var (found, read) := Step(store, hash, Get(KeyOf(cmd)), now, Leave);
      Exec(store, hash, cmd, now, Leave) == (Plan(cmd, found.value).0, read)
  {
  }

  lemma ExecEarly(store: seq<seq<Cell>>, hash: string -> nat, cmd: Command, now: nat)
    requires WellHashed(store, hash) && Early(cmd).Some?
    ensures Exec(store, hash, cmd, now, Leave) == (Early(cmd).value, store)
  {
  }

  /** A value that was found, or none, and what it shows. */
  ghost predicate FoundAs(value: Option<ExoVal>, shown: Option<Value>, region: set<object>)
    reads region
  {
    value.Some? == shown.Some? && (value.Some? ==> Represents(value.value, shown.value, region))
  }

  /** What a node shows, if there is one. */
  ghost function Shown(node: ListNode?): Option<Value>
    reads node
  {
    if node == null then None else Some(node.shows)
  }

  /** get, for a command that only reads. */
  method FetchFor(table: HashTable, ghost cmd: Command, key: string, now: nat)
    returns (value: Option<ExoVal>, ghost node: ListNode?)
    requires Sound(table) && ReadsOnly(cmd) && Early(cmd).None? && key == KeyOf(cmd)
    modifies table.lists, table.listed`next, table.listed`prev, table.listed`freed
    ensures Sound(table) && (old(table.Alive()) ==> table.Alive())
    ensures FoundAs(value, Shown(node), if node == null then {} else node.region)
    ensures (Plan(cmd, Shown(node)).0, table.Contents()) == Exec(old(table.Contents()), table.hash, cmd, now, Leave)
  {
    hide Exec, Plan, Step, Sound;
    SoundIsValid(table);
    ExecReadsOnly(table.Contents(), table.hash, cmd, now);
    value, node := Fetch(table, key, now);
  }

  /** ds/commands.c:80-88. */
  method GetReply(ghost cmd: Command, value: Option<ExoVal>, ghost shown: Option<Value>, ghost region: set<object>)
    returns (reply: Reply)
    requires FoundAs(value, shown, region) && cmd.GET?
    ensures reply == Plan(cmd, shown).0
  {
    if value.None? { return ZSpec.Null; }
    match value.value {
      case StrVal(str) => reply := ZSpec.Bulk(str);
      case _ => reply := WRONG_TYPE;
    }
  }

  /** getCommand (ds/commands.c:76-89). */
  method GetCommand(table: HashTable, key: string, now: nat) returns (reply: Reply)
    requires Sound(table)
    modifies table.lists, table.listed`next, table.listed`prev, table.listed`freed
    ensures Sound(table) && (old(table.Alive()) ==> table.Alive())
    ensures (reply, table.Contents()) == Exec(old(table.Contents()), table.hash, GET(key), now, Leave)
  {
    hide Exec, Plan, Sound;
    var value;
    ghost var node;
    value, node := FetchFor(table, GET(key), key, now);
    reply := GetReply(GET(key), value, Shown(node), if node == null then {} else node.region);
  }

  /** The loop of parseSetSwitches (ds/commands.c:493-537). */
  method ParseSetSwitches(args: seq<string>) returns (parsed: Parsed)
    requires |args| >= 3 && SwitchesFit(args, 3)
    ensures parsed == SwitchesFrom(args, 3, NO_SWITCHES)
  {
    var i, sw := 3, NO_SWITCHES;
    while i < |args|
      invariant 3 <= i <= |args|
      invariant SwitchesFrom(args, i, sw) == SwitchesFrom(args, 3, NO_SWITCHES)
      invariant SwitchesFit(args, i)
    {
      var name := Upper(args[i]);
      if name == "EX" || name == "PX" {
        if i + 1 == |args| { return Bad(ZSpec.SYNTAX_ERROR); }
        var n := StringToLongLong(args[i + 1]);
        if n == -1 { return Bad(VALUE_IS_NOT_AN_INTEGER); }
        sw := if name == "EX" then sw.(ex := true, exValue := Capped(n)) else sw.(px := true, pxValue := Capped(n));
        i := i + 2;
      } else if name == "NX" {
        sw := sw.(nx := true);
        i := i + 1;
      } else if name == "XX" {
        sw := sw.(xx := true);
        i := i + 1;
      } else {
        return Bad(ZSpec.SYNTAX_ERROR);
      }
    }
    parsed := Good(sw);
  }

  /** ds/commands.c:97-121: what a SET asks of the table, or its early reply. */
  method PlanSet(args: seq<string>) returns (plan: SetPlan)
    requires Readable(SET(args))
    ensures plan == SetPlanOf(args)
  {
    if |args| > 9 {
      return Answered(ZSpec.Error(ZSpec.SYNTAX_ERROR));
    } else if |args| < 3 {
      return Answered(ZSpec.Error(ZSpec.WRONG_NUMBER_OF_ARGUMENTS));
    }
    var parsed := ParseSetSwitches(args);
    if parsed.Bad? { return Answered(ZSpec.Error(parsed.code)); }
    var sw := parsed.sw;
    var ms := sw.exValue * 1000 + sw.pxValue;
    if (sw.ex || sw.px) && ms == 0 {
      return Answered(ZSpec.Error(INVALID_EXPIRE_TIME));
    } else if sw.nx && sw.xx {
      return Answered(ZSpec.Null);
    }
    plan := Asked(SetEx(args[1], args[2], ms, sw.nx, sw.xx));
  }

  lemma ExecSet(store: seq<seq<Cell>>, hash: string -> nat, args: seq<string>, now: nat, rule: StaleRule)
    requires WellHashed(store, hash)
    ensures var plan := SetPlanOf(args);
      && Exec(store, hash, SET(args), now, rule) == (
        if plan.Answered? then (plan.reply, store)
        else (SetReply(Step(store, hash, plan.op, now, rule).0), Step(store, hash, plan.op, now, rule).1))
      && FindsStale(store, hash, SET(args), now) ==
        (plan.Asked? && FreesInPlace(store[hash(plan.op.key)], plan.op, now))
  {
  }

  /** setCommand (ds/commands.c:96-130).  Afterwards no freed node can be reached if and only if no
      expired node was found, or it was unlinked. */
  method SetCommand(table: HashTable, args: seq<string>, now: nat, rule: StaleRule) returns (reply: Reply)
    requires Sound(table) && Readable(SET(args))
    modifies table`listed, table.lists, table.listed
    ensures Sound(table) && fresh(table.listed - old(table.listed))
    ensures old(table.Alive()) ==>
      (table.Alive() <==> rule.Unlink? || !FindsStale(old(table.Contents()), table.hash, SET(args), now))
    ensures (reply, table.Contents()) == Exec(old(table.Contents()), table.hash, SET(args), now, rule)
  {
    hide Exec, SetPlanOf, Step, FindsStale, FreesInPlace, Sound;
    SoundIsValid(table);
    ExecSet(table.Contents(), table.hash, args, now, rule);
    var plan := PlanSet(args);
    if plan.Answered? { return plan.reply; }
    var SetEx(key, str, ms, nx, xx) := plan.op;
    var done := KeepText(table, key, str, ms, nx, xx, now, rule);
    reply := if done then ZSpec.Ok else ZSpec.Null;
  }

  /** What delCommand's loop has done after k keys. */
  ghost predicate Deleted(store: seq<seq<Cell>>, hash: string -> nat, keys: seq<string>, now: nat, k: nat, n: nat,
                          store': seq<seq<Cell>>)
    requires WellHashed(store, hash) && k <= |keys|
  {
    (n, store') == DelAll(store, hash, keys[..k], now)
  }

  lemma DeletedNext(store: seq<seq<Cell>>, hash: string -> nat, keys: seq<string>, now: nat, k: nat,
                    n: nat, before: seq<seq<Cell>>, one: nat, after: seq<seq<Cell>>)
    requires WellHashed(store, hash) && WellHashed(before, hash) && k < |keys|
    requires Deleted(store, hash, keys, now, k, n, before)
    requires (Count(one), after) == Step(before, hash, Del(keys[k]), now, Leave)
    ensures Deleted(store, hash, keys, now, k + 1, n + one, after)
  {
    assert keys[..k + 1][..k] == keys[..k];
  }

  /** One round of delCommand's loop. */
  method DelNext(table: HashTable, args: ArgList, node: ArgNode, now: nat, ghost k: nat)
    returns (one: nat, next: ArgNode?)
    requires Sound(table) && args.Valid() && k < |args.nodes| && node == args.nodes[k]
    modifies table.lists, table.listed`next, table.listed`prev, table.listed`freed
    ensures Sound(table) && (old(table.Alive()) ==> table.Alive())
    ensures args.Valid() && args.nodes == old(args.nodes)
    ensures (Count(one), table.Contents()) == Step(old(table.Contents()), table.hash, Del(args.Keys()[k]), now, Leave)
    ensures next == args.NodeAt(k + 1)
  {
    hide Step, Sound;
    assert args.LinkedAt(k);
    one := Drop(table, node.key, now);
    next := node.next;
  }

  lemma DeletedEnds(store: seq<seq<Cell>>, hash: string -> nat, keys: seq<string>, now: nat, n: nat,
                    end: seq<seq<Cell>>)
    requires WellHashed(store, hash)
    ensures Deleted(store, hash, keys, now, 0, 0, store)
    ensures Deleted(store, hash, keys, now, |keys|, n, end) ==> DelAll(store, hash, keys, now) == (n, end)
  {
    assert keys[..|keys|] == keys;
  }

  /** The loop of delCommand. */
  method DelKeys(table: HashTable, args: ArgList, now: nat) returns (count: nat)
    requires Sound(table) && args.Valid() && args.size > 0
    modifies table.lists, table.listed`next, table.listed`prev, table.listed`freed
    ensures Sound(table) && (old(table.Alive()) ==> table.Alive())
    ensures (count, table.Contents()) == DelAll(old(table.Contents()), table.hash, args.Keys()[1..], now)
  {
    hide Step, DelAll, Deleted;
    count := 0;
    assert args.LinkedAt(0);
    var node := args.head.next;
    ghost var store, alive := table.Contents(), table.Alive();
    ghost var nodes := args.nodes;
    ghost var rest := args.Keys()[1..];
    ghost var k := 0;
    DeletedEnds(store, table.hash, rest, now, 0, store);
    while node != null
      invariant 0 <= k <= |rest| && node == args.NodeAt(k + 1)
      invariant args.Valid() && args.nodes == nodes
      invariant Sound(table) && (alive ==> table.Alive())
      invariant Deleted(store, table.hash, rest, now, k, count, table.Contents())
      decreases |rest| - k
    {
      ghost var before := table.Contents();
      var one;
      one, node := DelNext(table, args, node, now, k + 1);
      DeletedNext(store, table.hash, rest, now, k, count, before, one, table.Contents());
      count := count + one;
      k := k + 1;
    }
    assert k == |rest|;
    DeletedEnds(store, table.hash, rest, now, count, table.Contents());
  }

  lemma {:induction false} ExecDel(store: seq<seq<Cell>>, hash: string -> nat, keys: seq<string>, now: nat)
    requires WellHashed(store, hash)
    ensures Exec(store, hash, DEL(keys), now, Leave) ==
      if |keys| < 2 then (ZSpec.Error(ZSpec.WRONG_NUMBER_OF_ARGUMENTS), store)
      else (ZSpec.Integer(DelAll(store, hash, keys[1..], now).0), DelAll(store, hash, keys[1..], now).1)
  {
  }

  /** delCommand (ds/commands.c:136-150). */
  method DelCommand(table: HashTable, args: ArgList, now: nat) returns (reply: Reply)
    requires Sound(table) && args.Valid() && args.size > 0
    modifies table.lists, table.listed`next, table.listed`prev, table.listed`freed
    ensures Sound(table) && (old(table.Alive()) ==> table.Alive())
    ensures (reply, table.Contents()) == Exec(old(table.Contents()), table.hash, DEL(args.Keys()), now, Leave)
  {
    hide Exec, DelAll, Sound;
    SoundIsValid(table);
    ExecDel(table.Contents(), table.hash, args.Keys(), now);
    if args.size < 2 { return ZSpec.Error(ZSpec.WRONG_NUMBER_OF_ARGUMENTS); }
    var count := DelKeys(table, args, now);
    reply := ZSpec.Integer(count);
  }

  /** ds/commands.c:180-183. */
  method ParseOffset(offset: string) returns (pos: Option<nat>)
    requires NumberFits(offset)
    ensures pos == OffsetOf(offset)
  {
    var n := StringToLongLong(offset);
    pos := if n == -1 || n > OFFSET_MAX then None else Some(n);
  }

  /** ds/commands.c:187-192. */
  method GetbitReply(ghost cmd: Command, value: Option<ExoVal>, ghost shown: Option<Value>, ghost region: set<object>,
                     pos: nat)
    returns (reply: Reply)
    requires FoundAs(value, shown, region) && cmd.GETBIT? && OffsetOf(cmd.offset) == Some(pos)
    ensures reply == Plan(cmd, shown).0
  {
    if value.None? { return BitReply(false); }
    if !value.value.BitsVal? { return WRONG_TYPE; }
    var bit := value.value.bits.GetBit(pos);
    reply := BitReply(bit);
  }

  /** getbitCommand (ds/commands.c:176-198). */
  method GetbitCommand(table: HashTable, key: string, offset: string, now: nat) returns (reply: Reply)
    requires Sound(table) && Readable(GETBIT(key, offset))
    modifies table.lists, table.listed`next, table.listed`prev, table.listed`freed
    ensures Sound(table) && (old(table.Alive()) ==> table.Alive())
    ensures (reply, table.Contents()) == Exec(old(table.Contents()), table.hash, GETBIT(key, offset), now, Leave)
  {
    hide Exec, Plan, Sound;
    var pos := ParseOffset(offset);
    if pos.None? {
      SoundIsValid(table);
      ExecEarly(table.Contents(), table.hash, GETBIT(key, offset), now);
      return ZSpec.Error(OFFSET_NOT_INT_OR_OUT_OF_RANGE);
    }
    var value;
    ghost var node;
    value, node := FetchFor(table, GETBIT(key, offset), key, now);
    reply := GetbitReply(GETBIT(key, offset), value, Shown(node), if node == null then {} else node.region, pos.value);
  }

  /** A new bitmap or sorted set goes into the table. */
  method PutNew(table: HashTable, key: string, value: ExoVal, ghost shows: Value, ghost region: set<object>)
    returns (ghost node: ListNode)
    requires Sound(table) && Represents(value, shows, region) && SameKind(value, shows)
    requires Outside(table, region) && region !! table.owned
    modifies table, table.lists, table.listed
    ensures Sound(table) && (old(table.Alive()) ==> table.Alive()) && fresh(table.listed - old(table.listed))
    ensures table.owned == old(table.owned) + region
    ensures table.At(key) == {node} && node in table.listed && node.value == value && node.shows == shows
    ensures table.Contents() == Step(old(table.Contents()), table.hash, Put(key, shows), 0, Leave).1
  {
    node := Keep(table, key, value, shows, region);
    assert node in table.At(key);
  }

  ghost function BitsOp(key: string, value: Option<Value>, pos: nat, bit: bool): Op
    requires value.Some? ==> value.value.Bits?
  {
    Put(key, Bits(WithBit(if value.Some? then value.value.words else [], pos, bit)))
  }

  lemma ExecSetbit(store: seq<seq<Cell>>, hash: string -> nat, key: string, offset: string, bit: string, now: nat)
    requires WellHashed(store, hash) && OffsetOf(offset).Some? && BitOf(bit).Some?
    ensures var (found, read) := Step(store, hash, Get(key), now, Leave);
      var value, pos := found.value, OffsetOf(offset).value;
      Exec(store, hash, SETBIT(key, offset, bit), now, Leave) ==
        if value.Some? && !value.value.Bits? then (WRONG_TYPE, read)
        else (BitReply(value.Some? && Bit(value.value.words, pos)),
              Step(read, hash, BitsOp(key, value, pos, BitOf(bit).value), 0, Leave).1)
  {
  }

  /** ds/commands.c:232-235. */
  method NewBits(table: HashTable, key: string, pos: nat, bit: bool)
    requires Sound(table)
    modifies table, table.lists, table.listed
    ensures Sound(table) && (old(table.Alive()) ==> table.Alive())
    ensures fresh(table.listed - old(table.listed)) && fresh(table.owned - old(table.owned))
    ensures table.Contents() == Step(old(table.Contents()), table.hash, BitsOp(key, None, pos, bit), 0, Leave).1
  {
    hide Step, Sound;
    var bits := new BitmapNode.Init(pos, bit);
    ghost var _ := PutNew(table, key, BitsVal(bits), Bits(bits.Words()), {bits, bits.mem});
  }

  /** The bit is written into the bitmap found, or into a new one. */
  method WriteBit(table: HashTable, key: string, value: Option<ExoVal>, ghost node: ListNode?, pos: nat, bit: bool)
    returns (previous: bool)
    requires Sound(table) && value == if node == null then None else Some(node.value)
    requires node != null ==> table.At(key) == {node} && node in table.listed && node.value.BitsVal? && node.shows.Bits?
    modifies table, table.lists, table.listed, table.owned
    ensures Sound(table) && (old(table.Alive()) ==> table.Alive())
    ensures fresh(table.listed - old(table.listed)) && fresh(table.owned - old(table.owned))
    ensures var shown := if node == null then None else Some(old(node.shows));
      && table.Contents() == Step(old(table.Contents()), table.hash, BitsOp(key, shown, pos, bit), 0, Leave).1
      && previous == (shown.Some? && Bit(shown.value.words, pos))
  {
    if value.None? {
      NewBits(table, key, pos, bit);
      previous := false;
    } else {
      previous := SetBitOf(table, key, node, value.value.bits, node.shows.words, pos, bit);
    }
  }

  lemma SetbitFits(key: string, offset: string, bit: string)
    requires Readable(SETBIT(key, offset, bit))
    ensures NumberFits(offset)
  {
  }

  /** The arguments of a SETBIT: ds/commands.c:210-219. */
  method ParseBit(ghost key: string, offset: string, bit: string) returns (early: Option<Reply>, pos: nat)
    requires NumberFits(offset)
    ensures early == Early(SETBIT(key, offset, bit))
    ensures early.None? ==> OffsetOf(offset) == Some(pos) && BitOf(bit).Some?
  {
    var read := ParseOffset(offset);
    if read.None? { return Some(ZSpec.Error(OFFSET_NOT_INT_OR_OUT_OF_RANGE)), 0; }
    if BitOf(bit).None? { return Some(ZSpec.Error(BIT_NOT_INT_OR_OUT_OF_RANGE)), 0; }
    early, pos := None, read.value;
  }

  lemma HoldsBits(node: ListNode, owned: set<object>)
    requires Holds(node, owned)
    ensures node.value.BitsVal? <==> node.shows.Bits?
  {
  }

  /** setbitCommand (ds/commands.c:203-239). */
  method SetbitCommand(table: HashTable, key: string, offset: string, bit: string, now: nat) returns (reply: Reply)
    requires Sound(table) && Readable(SETBIT(key, offset, bit))
    modifies table, table.lists, table.listed, table.owned
    ensures Sound(table) && (old(table.Alive()) ==> table.Alive())
    ensures fresh(table.listed - old(table.listed)) && fresh(table.owned - old(table.owned))
    ensures (reply, table.Contents()) == Exec(old(table.Contents()), table.hash, SETBIT(key, offset, bit), now, Leave)
  {
    hide Exec, Step, BitsOp, Sound, Holds, Readable, Early, Bit;
    SoundIsValid(table);
    SetbitFits(key, offset, bit);
    var early, pos := ParseBit(key, offset, bit);
    if early.Some? {
      ExecEarly(table.Contents(), table.hash, SETBIT(key, offset, bit), now);
      return early.value;
    }
    ExecSetbit(table.Contents(), table.hash, key, offset, bit, now);
    var value;
    ghost var node;
    value, node := Fetch(table, key, now);
    if node != null { HoldsBits(node, table.owned); }
    if value.Some? && !value.value.BitsVal? { return WRONG_TYPE; }
    var result := WriteBit(table, key, value, node, pos, BitOf(bit).value);
    reply := BitReply(result);
  }

  /** Putting any set first, and then the real one or deleting the key, is one step. */
  lemma PutFirst(store: seq<seq<Cell>>, hash: string -> nat, key: string, first: seq<Entry>, s: seq<Entry>, now: nat)
    requires hash(key) < |store|
    ensures var (_, put) := Step(store, hash, Put(key, Scores(first)), 0, Leave);
      Step(put, hash, ScoresOp(key, s), now, Leave).1 == Step(store, hash, ScoresOp(key, s), now, Leave).1
  {
    PutFirstIn(store[hash(key)], key, first, s, now);
  }

  lemma PutFirstIn(b: seq<Cell>, key: string, first: seq<Entry>, s: seq<Entry>, now: nat)
    ensures StepB(PutB(b, key, Scores(first)).1, ScoresOp(key, s), now, Leave).1 ==
      StepB(b, ScoresOp(key, s), now, Leave).1
  {
    var i := Find(b, key);
    if i < |b| {
      FirstReplaced(b, key, first, s, i);
    } else {
      FirstAppended(b, key, first, s);
    }
  }

  lemma FirstReplaced(b: seq<Cell>, key: string, first: seq<Entry>, s: seq<Entry>, i: nat)
    requires i == Find(b, key) < |b|
    ensures var u := b[i := Cell(key, Scores(first), b[i].expiry)];
      && Find(u, key) == i && Unlinked(u, i) == Unlinked(b, i)
      && u[i := Cell(key, Scores(s), b[i].expiry)] == b[i := Cell(key, Scores(s), b[i].expiry)]
  {
    FindIs(b[i := Cell(key, Scores(first), b[i].expiry)], key, i);
  }

  lemma {:induction false} FirstAppended(b: seq<Cell>, key: string, first: seq<Entry>, s: seq<Entry>)
    requires Find(b, key) == |b|
    ensures var u := b + [Cell(key, Scores(first), DEFAULT_EXPIRY_MS)];
      && Find(u, key) == |b| && Unlinked(u, |b|) == b
      && u[|b| := Cell(key, Scores(s), DEFAULT_EXPIRY_MS)] == b + [Cell(key, Scores(s), DEFAULT_EXPIRY_MS)]
  {
    FindIs(b + [Cell(key, Scores(first), DEFAULT_EXPIRY_MS)], key, |b|);
  }

  /** ds/commands.c:265-269: the call of addToSortedSet, and the key goes away when the set is empty. */
  method AddAndTidy(table: HashTable, key: string, ghost node: ListNode, list: SkipList, ghost s: seq<Entry>,
                    args: seq<string>, heights: seq<nat>, rule: TieRule, now: nat)
    returns (reply: Reply, ghost s': seq<Entry>)
    requires Sound(table) && table.At(key) == {node} && node in table.listed
    requires node.value == SetVal(list) && node.shows == Scores(s) && Suits(s, args, heights, rule)
    modifies table, table.lists, table.listed, table.owned
    ensures Sound(table) && (old(table.Alive()) ==> table.Alive())
    ensures fresh(table.listed - old(table.listed)) && fresh(table.owned - old(table.owned))
    ensures Zadded(s, args, reply, s')
    ensures table.Contents() == Step(old(table.Contents()), table.hash, ScoresOp(key, s'), now, Leave).1
  {
    ghost var store := table.Contents();
    reply := AddToList(table, key, node, list, s, args, heights, rule);
    s' := list.entries;
    PutFirst(store, table.hash, key, s', s', now);
    if list.size == 0 {
      var _ := Drop(table, key, now);
    }
  }

  /** ds/commands.c:262-263. */
  method NewScores(table: HashTable, key: string) returns (list: SkipList, ghost node: ListNode)
    requires Sound(table)
    modifies table, table.lists, table.listed
    ensures Sound(table) && (old(table.Alive()) ==> table.Alive())
    ensures fresh(table.listed - old(table.listed)) && fresh(table.owned - old(table.owned))
    ensures table.At(key) == {node} && node in table.listed && node.value == SetVal(list) && node.shows == Scores([])
    ensures table.Contents() == Step(old(table.Contents()), table.hash, Put(key, Scores([])), 0, Leave).1
  {
    hide Step, Sound;
    list := new SkipList();
    node := PutNew(table, key, SetVal(list), Scores([]), {list} + list.nodes);
  }

  /** zaddCommand from the value found on (ds/commands.c:253-269): a missing key first gets an empty
      skip list. */
  method AddToScores(table: HashTable, key: string, value: Option<ExoVal>, ghost node: ListNode?, ghost s: seq<Entry>,
                     args: seq<string>, heights: seq<nat>, rule: TieRule, now: nat)
    returns (reply: Reply, ghost s': seq<Entry>)
    requires Sound(table) && value == if node == null then None else Some(node.value)
    requires node == null ==> s == []
    requires node != null ==>
      table.At(key) == {node} && node in table.listed && node.value.SetVal? && node.shows == Scores(s)
    requires Suits(s, args, heights, rule)
    modifies table, table.lists, table.listed, table.owned
    ensures Sound(table) && (old(table.Alive()) ==> table.Alive())
    ensures fresh(table.listed - old(table.listed)) && fresh(table.owned - old(table.owned))
    ensures Zadded(s, args, reply, s')
    ensures table.Contents() == Step(old(table.Contents()), table.hash, ScoresOp(key, s'), now, Leave).1
  {
    if value.None? {
      PutFirst(table.Contents(), table.hash, key, [], ZSpec.ZaddReply(s, args).1, now);
      var list;
      ghost var made;
      list, made := NewScores(table, key);
      reply, s' := AddAndTidy(table, key, made, list, s, args, heights, rule, now);
    } else {
      reply, s' := AddAndTidy(table, key, node, value.value.list, s, args, heights, rule, now);
    }
  }

  /** What a ZADD may do with the set it finds. */
  lemma ZaddSuits(store: seq<seq<Cell>>, hash: string -> nat, args: seq<string>, now: nat, heights: seq<nat>,
                  rule: TieRule)
    requires WellHashed(store, hash) && |args| >= 4 && Readable(ZADD(args))
    requires |args| <= |heights| && forall i :: 0 <= i < |heights| ==> heights[i] < MAX_LEVEL
    requires rule.NextKey? || SafeExec(store, hash, ZADD(args), now)
    ensures var s := FoundScores(Step(store, hash, Get(args[1]), now, Leave).0.value);
      s.Some? ==> Suits(s.value, args, heights, rule)
  {
  }

  lemma ExecZaddWrong(store: seq<seq<Cell>>, hash: string -> nat, args: seq<string>, now: nat)
    requires WellHashed(store, hash) && |args| >= 4
    requires FoundScores(Step(store, hash, Get(args[1]), now, Leave).0.value).None?
    ensures Exec(store, hash, ZADD(args), now, Leave) == (WRONG_TYPE, Step(store, hash, Get(args[1]), now, Leave).1)
  {
    ExecZadd(store, hash, args, now);
  }

  /** What it must then have done. */
  lemma ExecZaddBy(store: seq<seq<Cell>>, hash: string -> nat, args: seq<string>, now: nat, s: seq<Entry>,
                   reply: Reply, s': seq<Entry>)
    requires WellHashed(store, hash) && |args| >= 4
    requires FoundScores(Step(store, hash, Get(args[1]), now, Leave).0.value) == Some(s)
    requires Zadded(s, args, reply, s')
    ensures Exec(store, hash, ZADD(args), now, Leave) ==
      (reply, Step(Step(store, hash, Get(args[1]), now, Leave).1, hash, ScoresOp(args[1], s'), now, Leave).1)
  {
    ExecZadd(store, hash, args, now);
  }

  lemma HoldsScores(node: ListNode, owned: set<object>)
    requires Holds(node, owned)
    ensures node.value.SetVal? <==> node.shows.Scores?
  {
  }

  /** zaddCommand (ds/commands.c:245-271), for any tower heights and with either tie-break of
      insertion; with its own, for pairs that are safe. */
  method ZaddCommand(table: HashTable, args: seq<string>, now: nat, heights: seq<nat>, rule: TieRule)
    returns (reply: Reply)
    requires Sound(table) && Readable(ZADD(args))
    requires |args| <= |heights| && forall i :: 0 <= i < |heights| ==> heights[i] < MAX_LEVEL
    requires rule.NextKey? || SafeExec(table.Contents(), table.hash, ZADD(args), now)
    modifies table, table.lists, table.listed, table.owned
    ensures Sound(table) && (old(table.Alive()) ==> table.Alive())
    ensures fresh(table.listed - old(table.listed)) && fresh(table.owned - old(table.owned))
    ensures (reply, table.Contents()) == Exec(old(table.Contents()), table.hash, ZADD(args), now, Leave)
  {
    hide Exec, Step, Sound, Suits, Zadded, SafeExec, Readable, Holds, ScoresOp;
    SoundIsValid(table);
    ghost var store := table.Contents();
    if |args| < 4 {
      ExecEarly(store, table.hash, ZADD(args), now);
      return ZSpec.Error(ZSpec.WRONG_NUMBER_OF_ARGUMENTS);
    }
    ZaddSuits(store, table.hash, args, now, heights, rule);
    var value;
    ghost var node, s';
    value, node := Fetch(table, args[1], now);
    if node != null { HoldsScores(node, table.owned); }
    if value.Some? && !value.value.SetVal? {
      ExecZaddWrong(store, table.hash, args, now);
      return WRONG_TYPE;
    }
    ghost var s := if node == null then [] else node.shows.entries;
    reply, s' := AddToScores(table, args[1], value, node, s, args, heights, rule, now);
    ExecZaddBy(store, table.hash, args, now, s, reply, s');
  }

  /** ds/commands.c:281-291. */
  method ZcardReply(ghost cmd: Command, value: Option<ExoVal>, ghost shown: Option<Value>, ghost region: set<object>)
    returns (reply: Reply)
    requires FoundAs(value, shown, region) && cmd.ZCARD?
    ensures reply == Plan(cmd, shown).0
  {
    if value.None? { return ZSpec.Integer(0); }
    match value.value {
      case SetVal(list) => reply := ZSpec.Integer(list.size);
      case _ => reply := WRONG_TYPE;
    }
  }

  /** zcardCommand (ds/commands.c:276-292). */
  method ZcardCommand(table: HashTable, key: string, now: nat) returns (reply: Reply)
    requires Sound(table)
    modifies table.lists, table.listed`next, table.listed`prev, table.listed`freed
    ensures Sound(table) && (old(table.Alive()) ==> table.Alive())
    ensures (reply, table.Contents()) == Exec(old(table.Contents()), table.hash, ZCARD(key), now, Leave)
  {
    hide Exec, Plan, Sound;
    var value;
    ghost var node;
    value, node := FetchFor(table, ZCARD(key), key, now);
    reply := ZcardReply(ZCARD(key), value, Shown(node), if node == null then {} else node.region);
  }

  /** One bound of parseMinMax (ds/commands.c:549-567). */
  method ParseBound(s: string) returns (bound: Option<real>)
    requires BoundFits(s)
    ensures bound == BoundOf(s)
  {
    var str, minus := s, false;
    if str != [] && str[0] == '-' {
      minus := true;
      str := str[1..];
    }
    if str != [] && str[0] == '+' { str := str[1..]; }
    bound := StringToLongDouble(str);
    if bound.Some? && minus { bound := Some(-1.0 * bound.value); }
  }

  /** One index of parseRange (ds/commands.c:462-481). */
  method ParseIndex(s: string) returns (index: Option<int>)
    requires IndexFits(s)
    ensures index == IndexOfArg(s)
  {
    var str, minus := s, false;
    if str != [] && str[0] == '-' {
      minus := true;
      str := str[1..];
    }
    var num := StringToLongLong(str);
    index := if num == -1 then None else Some(if minus then -num else num);
  }

  /** ds/commands.c:304-317. */
  method ZcountReply(ghost cmd: Command, value: Option<ExoVal>, ghost shown: Option<Value>, ghost region: set<object>,
                     min: string, max: string)
    returns (reply: Reply)
    requires FoundAs(value, shown, region) && Readable(cmd) && cmd.ZCOUNT? && cmd.min == min && cmd.max == max
    ensures reply == Plan(cmd, shown).0
  {
    if value.None? { return ZSpec.Integer(0); }
    if !value.value.SetVal? { return WRONG_TYPE; }
    var left := ParseBound(min);
    if left.None? { return ZSpec.Error(MIN_OR_MAX_IS_NOT_A_FLOAT); }
    var right := ParseBound(max);
    if right.None? { return ZSpec.Error(MIN_OR_MAX_IS_NOT_A_FLOAT); }
    var n := ZCommands.Zcount(value.value.list, left.value, right.value);
    reply := ZSpec.Integer(n);
  }

  /** zcountCommand (ds/commands.c:297-322). */
  method ZcountCommand(table: HashTable, key: string, min: string, max: string, now: nat) returns (reply: Reply)
    requires Sound(table) && Readable(ZCOUNT(key, min, max))
    modifies table.lists, table.listed`next, table.listed`prev, table.listed`freed
    ensures Sound(table) && (old(table.Alive()) ==> table.Alive())
    ensures (reply, table.Contents()) == Exec(old(table.Contents()), table.hash, ZCOUNT(key, min, max), now, Leave)
  {
    hide Exec, Plan, Sound;
    var value;
    ghost var node;
    value, node := FetchFor(table, ZCOUNT(key, min, max), key, now);
    reply := ZcountReply(ZCOUNT(key, min, max), value, Shown(node), if node == null then {} else node.region, min, max);
  }

  /** The arguments of a ZRANGE: ds/commands.c:328-342, 455-481. */
  method ParseRange(args: seq<string>) returns (early: Option<Reply>, left: int, right: int)
    requires Readable(ZRANGE(args))
    ensures early == Early(ZRANGE(args))
    ensures early.None? ==> Some(left) == IndexOfArg(args[2]) && Some(right) == IndexOfArg(args[3])
  {
    left, right := 0, 0;
    if |args| - 1 != 3 && |args| - 1 != 4 { return Some(ZSpec.Error(ZSpec.WRONG_NUMBER_OF_ARGUMENTS)), 0, 0; }
    var from := ParseIndex(args[2]);
    if from.None? { return Some(ZSpec.Error(VALUE_IS_NOT_AN_INTEGER)), 0, 0; }
    var to := ParseIndex(args[3]);
    if to.None? { return Some(ZSpec.Error(VALUE_IS_NOT_AN_INTEGER)), 0, 0; }
    if |args| == 5 && Upper(args[4]) != "WITHSCORES" { return Some(ZSpec.Error(ZSpec.SYNTAX_ERROR)), 0, 0; }
    early, left, right := None, from.value, to.value;
  }

  /** ds/commands.c:346-371. */
  method ZrangeReply(ghost cmd: Command, value: Option<ExoVal>, ghost shown: Option<Value>, ghost region: set<object>,
                     left: int, right: int, withScores: bool)
    returns (reply: Reply)
    requires FoundAs(value, shown, region) && cmd.ZRANGE? && Early(cmd).None? && withScores == (|cmd.args| == 5)
    requires IndexOfArg(cmd.args[2]) == Some(left) && IndexOfArg(cmd.args[3]) == Some(right)
    ensures reply == Plan(cmd, shown).0
  {
    if value.None? { return ZSpec.Array([]); }
    if !value.value.SetVal? { return WRONG_TYPE; }
    var items := ZCommands.Zrange(value.value.list, left, right, withScores);
    reply := ZSpec.Array(items);
  }

  /** zrangeCommand (ds/commands.c:327-372). */
  method ZrangeCommand(table: HashTable, args: seq<string>, now: nat) returns (reply: Reply)
    requires Sound(table) && Readable(ZRANGE(args))
    modifies table.lists, table.listed`next, table.listed`prev, table.listed`freed
    ensures Sound(table) && (old(table.Alive()) ==> table.Alive())
    ensures (reply, table.Contents()) == Exec(old(table.Contents()), table.hash, ZRANGE(args), now, Leave)
  {
    hide Exec, Plan, Sound;
    SoundIsValid(table);
    var early, left, right := ParseRange(args);
    if early.Some? {
      ExecEarly(table.Contents(), table.hash, ZRANGE(args), now);
      return early.value;
    }
    var value;
    ghost var node;
    value, node := FetchFor(table, ZRANGE(args), args[1], now);
    reply := ZrangeReply(ZRANGE(args), value, Shown(node), if node == null then {} else node.region, left, right,
                         |args| == 5);
  }

  /** flushCommand (ds/commands.c:162-171): a new table takes the place of the old one. */
  method FlushCommand(table: HashTable, ghost now: nat) returns (reply: Reply, empty: HashTable)
    requires Sound(table)
    ensures Sound(empty) && empty.Alive() && empty.hash == table.hash
    ensures fresh(empty) && fresh(empty.lists) && fresh(empty.listed) && fresh(empty.owned)
    ensures (reply, empty.Contents()) == Exec(table.Contents(), table.hash, FLUSHALL, now, Leave)
  {
    empty := new HashTable(table.hash);
    reply := ZSpec.Ok;
  }
}
