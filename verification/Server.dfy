/** Runs of commands on the heap: the table, its lists and nodes, and the bitmaps and skip lists they
    hold, against the specified commands and the clocked map. */
module Server {
  import opened Store
  import opened ArgList
  import opened HashTable
  import opened Keyspace
  import opened SkipShape
  import opened SkipList
  import opened CommandSpec
  import opened CommandRuns
  import opened Commands

  /** What the dispatcher guarantees of a command, and tower heights for it. */
  predicate Served(cmd: Command, heights: seq<nat>) {
    && Readable(cmd) && (cmd.DEL? ==> |cmd.args| > 0)
    && (cmd.ZADD? ==> |cmd.args| <= |heights|)
    && forall i :: 0 <= i < |heights| ==> heights[i] < MAX_LEVEL
  }

  method ArgsOf(keys: seq<string>) returns (args: ArgList)
    ensures fresh(args) && fresh(args.nodes) && args.Valid() && args.Keys() == keys
  {
    args := new ArgList();
    for i := 0 to |keys|
      invariant fresh(args) && fresh(args.nodes) && args.Valid() && args.Keys() == keys[..i]
    {
      args.Add(keys[i]);
    }
  }

  lemma ExecAnyRule(store: seq<seq<Cell>>, hash: string -> nat, cmd: Command, now: nat, rule: StaleRule)
    requires WellHashed(store, hash) && !cmd.SET?
    ensures Exec(store, hash, cmd, now, rule) == Exec(store, hash, cmd, now, Leave)
    ensures !FindsStale(store, hash, cmd, now)
  {
  }

  /** One command on the table, but for SET and FLUSHALL. */
  method Dispatch(table: HashTable, cmd: Command, now: nat, heights: seq<nat>, tie: TieRule) returns (reply: Reply)
    requires Sound(table) && Served(cmd, heights) && !cmd.SET? && !cmd.FLUSHALL?
    requires tie.NextKey? || SafeExec(table.Contents(), table.hash, cmd, now)
    modifies table, table.lists, table.listed, table.owned
    ensures Sound(table) && (old(table.Alive()) ==> table.Alive())
    ensures fresh(table.listed - old(table.listed)) && fresh(table.owned - old(table.owned))
    ensures (reply, table.Contents()) == Exec(old(table.Contents()), table.hash, cmd, now, Leave)
  {
    hide Exec, Sound, SafeExec;
    match cmd {
      case GET(key) => reply := GetCommand(table, key, now);
      case DEL(keys) => reply := DeleteKeys(table, keys, now);
      case GETBIT(key, offset) => reply := GetbitCommand(table, key, offset, now);
      case SETBIT(key, offset, bit) => reply := SetbitCommand(table, key, offset, bit, now);
      case ZADD(args) => reply := ZaddCommand(table, args, now, heights, tie);
      case ZCARD(key) => reply := ZcardCommand(table, key, now);
      case ZCOUNT(key, min, max) => reply := ZcountCommand(table, key, min, max, now);
      case ZRANGE(args) => reply := ZrangeCommand(table, args, now);
    }
  }

  method DeleteKeys(table: HashTable, keys: seq<string>, now: nat) returns (reply: Reply)
    requires Sound(table) && |keys| > 0
    modifies table.lists, table.listed`next, table.listed`prev, table.listed`freed
    ensures Sound(table) && (old(table.Alive()) ==> table.Alive())
    ensures (reply, table.Contents()) == Exec(old(table.Contents()), table.hash, DEL(keys), now, Leave)
  {
    hide Exec, Sound;
    var args := ArgsOf(keys);
    reply := DelCommand(table, args, now);
  }

  /** One command.  FLUSHALL goes on with a new table. */
  method Execute(table: HashTable, cmd: Command, now: nat, heights: seq<nat>, tie: TieRule, stale: StaleRule)
    returns (reply: Reply, next: HashTable)
    requires Sound(table) && Served(cmd, heights)
    requires tie.NextKey? || SafeExec(table.Contents(), table.hash, cmd, now)
    modifies table, table.lists, table.listed, table.owned
    ensures Sound(next) && next.hash == table.hash && (next == table || (fresh(next) && fresh(next.lists)))
    ensures fresh(next.listed - old(table.listed)) && fresh(next.owned - old(table.owned))
    ensures old(table.Alive()) ==>
      (next.Alive() <==> stale.Unlink? || !FindsStale(old(table.Contents()), table.hash, cmd, now))
    ensures (reply, next.Contents()) == Exec(old(table.Contents()), table.hash, cmd, now, stale)
  {
    hide Exec, Sound, FindsStale;
    SoundIsValid(table);
    next := table;
    if cmd.SET? {
      reply := SetCommand(table, cmd.args, now, stale);
    } else {
      ExecAnyRule(table.Contents(), table.hash, cmd, now, stale);
      if cmd.FLUSHALL? {
        reply, next := FlushCommand(table, now);
      } else {
        reply := Dispatch(table, cmd, now, heights, tie);
      }
    }
  }

  // ----- runs -----

  /** What is replied and what is left of the run, after some of its commands. */
  ghost predicate Midway(store: seq<seq<Cell>>, hash: string -> nat, run: seq<Timed>, stale: StaleRule, i: nat,
                         replies: seq<Reply>, now: seq<seq<Cell>>)
    requires WellHashed(store, hash) && i <= |run|
  {
    && |now| == BUCKETS
    && ExecAll(store, hash, run, stale) ==
      (replies + ExecAll(now, hash, run[i..], stale).0, ExecAll(now, hash, run[i..], stale).1)
  }

  /** What the rest of a run needs of the tie-break, and what keeps freed nodes out of reach. */
  ghost predicate Fine(now: seq<seq<Cell>>, hash: string -> nat, rest: seq<Timed>, tie: TieRule, stale: StaleRule,
                       clean: bool)
    requires WellHashed(now, hash)
  {
    && (tie.NextKey? || SafeThroughout(now, hash, rest, stale))
    && (clean ==> stale.Unlink? || NeverFindsStale(now, hash, rest, stale))
  }

  lemma MidwayNext(store: seq<seq<Cell>>, hash: string -> nat, run: seq<Timed>, stale: StaleRule, i: nat,
                   replies: seq<Reply>, now: seq<seq<Cell>>)
    requires WellHashed(store, hash) && WellHashed(now, hash) && i < |run|
    requires Midway(store, hash, run, stale, i, replies, now)
    ensures var (reply, next) := Exec(now, hash, run[i].cmd, run[i].now, stale);
      Midway(store, hash, run, stale, i + 1, replies + [reply], next)
  {
    hide Exec;
    assert run[i..][0] == run[i] && run[i..][1..] == run[i + 1..];
    var (reply, next) := Exec(now, hash, run[i].cmd, run[i].now, stale);
    var rest := ExecAll(next, hash, run[i + 1..], stale).0;
    assert replies + ([reply] + rest) == replies + [reply] + rest;
  }

  lemma FineNext(now: seq<seq<Cell>>, hash: string -> nat, run: seq<Timed>, i: nat, tie: TieRule, stale: StaleRule,
                 clean: bool)
    requires WellHashed(now, hash) && i < |run| && Fine(now, hash, run[i..], tie, stale, clean)
    ensures tie.NextKey? || SafeExec(now, hash, run[i].cmd, run[i].now)
    ensures clean ==> stale.Unlink? || !FindsStale(now, hash, run[i].cmd, run[i].now)
    ensures Fine(Exec(now, hash, run[i].cmd, run[i].now, stale).1, hash, run[i + 1..], tie, stale, clean)
  {
    hide Exec, SafeExec, FindsStale;
    assert run[i..][0] == run[i] && run[i..][1..] == run[i + 1..];
  }

  lemma {:induction false} MidwayEnds(store: seq<seq<Cell>>, hash: string -> nat, run: seq<Timed>, stale: StaleRule,
                                      replies: seq<Reply>, now: seq<seq<Cell>>)
    requires WellHashed(store, hash)
    ensures Midway(store, hash, run, stale, 0, [], store)
    ensures Midway(store, hash, run, stale, |run|, replies, now) ==> ExecAll(store, hash, run, stale) == (replies, now)
  {
    assert run[0..] == run;
    assert [] + ExecAll(store, hash, run, stale).0 == ExecAll(store, hash, run, stale).0;
    assert run[|run|..] == [] && replies + [] == replies;
  }

  /** The table that goes on is made of the old one and new objects. */
  twostate predicate Continues(table: HashTable, new next: HashTable)
    reads table, next
  {
    && next.hash == table.hash && (next == table || (fresh(next) && fresh(next.lists)))
    && fresh(next.listed - old(table.listed)) && fresh(next.owned - old(table.owned))
  }

  /** One round of a run. */
  method ServeOne(table: HashTable, run: seq<Timed>, i: nat, heights: seq<nat>, tie: TieRule, stale: StaleRule,
                  ghost store: seq<seq<Cell>>, replies: seq<Reply>, ghost clean: bool)
    returns (replies': seq<Reply>, next: HashTable)
    requires Sound(table) && WellHashed(store, table.hash) && i < |run| && Served(run[i].cmd, heights)
    requires Midway(store, table.hash, run, stale, i, replies, table.Contents())
    requires Fine(table.Contents(), table.hash, run[i..], tie, stale, clean) && (clean ==> table.Alive())
    modifies table, table.lists, table.listed, table.owned
    ensures Sound(next) && Continues(table, next) && (clean ==> next.Alive())
    ensures Midway(store, table.hash, run, stale, i + 1, replies', next.Contents())
    ensures Fine(next.Contents(), table.hash, run[i + 1..], tie, stale, clean)
  {
    hide Exec, SafeExec, FindsStale, Sound, Midway, Fine;
    SoundIsValid(table);
    MidwayNext(store, table.hash, run, stale, i, replies, table.Contents());
    FineNext(table.Contents(), table.hash, run, i, tie, stale, clean);
    var reply;
    reply, next := Execute(table, run[i].cmd, run[i].now, heights, tie, stale);
    replies' := replies + [reply];
  }

  /** Every run of commands on nodes replies what the specification replies and leaves the store it
      leaves, for any tower heights; and if no SET finds an expired node, or the shipped line is
      mended, no freed node can ever be reached.  With insertion's own tie-break, for runs all of
      whose pairs are safe. */
  method Serve(table: HashTable, run: seq<Timed>, heights: seq<seq<nat>>, tie: TieRule, stale: StaleRule)
    returns (replies: seq<Reply>, end: HashTable)
    requires Sound(table) && |run| <= |heights|
    requires forall i {:trigger run[i]} :: 0 <= i < |run| ==> Served(run[i].cmd, heights[i])
    requires tie.NextKey? || SafeThroughout(table.Contents(), table.hash, run, stale)
    modifies table, table.lists, table.listed, table.owned
    ensures Sound(end) && Continues(table, end)
    ensures old(table.Alive()) && (stale.Unlink? || NeverFindsStale(old(table.Contents()), table.hash, run, stale)) ==>
      end.Alive()
    ensures (replies, end.Contents()) == ExecAll(old(table.Contents()), table.hash, run, stale)
  {
    hide Exec, ExecAll, SafeThroughout, NeverFindsStale, Midway;
    ghost var store, hash := table.Contents(), table.hash;
    ghost var clean := table.Alive() && (stale.Unlink? || NeverFindsStale(store, hash, run, stale));
    replies, end := [], table;
    var i := 0;
    MidwayEnds(store, hash, run, stale, [], store);
    assert run[0..] == run;
    while i < |run|
      invariant 0 <= i <= |run| && Sound(end) && Continues(table, end) && (clean ==> end.Alive())
      invariant Midway(store, hash, run, stale, i, replies, end.Contents())
      invariant Fine(end.Contents(), hash, run[i..], tie, stale, clean)
    {
      replies, end := ServeOne(end, run, i, heights[i], tie, stale, store, replies, clean);
      i := i + 1;
    }
    MidwayEnds(store, hash, run, stale, replies, end.Contents());
  }

  /** A server that starts with an empty table: its replies are those of a map with a clock, whose
      sorted sets are plain sorted sequences, and every key shows the same in the end. */
  method ServeFromStart(hash: string -> nat, run: seq<Timed>, heights: seq<seq<nat>>, tie: TieRule, stale: StaleRule)
    returns (replies: seq<Reply>, end: HashTable)
    requires Hashing(hash) && InTime(run, 0) && |run| <= |heights|
    requires forall i {:trigger run[i]} :: 0 <= i < |run| ==> Served(run[i].cmd, heights[i])
    requires tie.NextKey? || SafeThroughout(EmptyStore(), hash, run, stale)
    requires stale.Unlink? || NeverFindsStale(EmptyStore(), hash, run, stale)
    ensures replies == IdealExecAll(map[], run).0 && Sound(end) && end.Alive() && end.hash == hash
    ensures WellKept(end.Contents(), hash) && ProperStore(end.Contents())
    ensures Agrees(end.Contents(), IdealExecAll(map[], run).1, hash, EndOf(run, 0))
  {
    EmptyKept(hash, 0);
    RunRefines(EmptyStore(), map[], hash, run, 0, stale);
    RunProper(EmptyStore(), hash, run, stale);
    var table := new HashTable(hash);
    replies, end := Serve(table, run, heights, tie, stale);
  }
}
