/** Whole runs of commands: the store refines a clocked map, keeps its sorted sets in order, and
    what single commands may and may not change. */
module CommandRuns {
  import opened Decimal
  import opened SortedSet
  import opened Store
  import opened CommandSpec

  // ----- DEL -----

  ghost predicate Live(store: seq<seq<Cell>>, hash: string -> nat, k: string, now: nat)
    requires |store| == BUCKETS && Hashing(hash)
  {
    var c := CellAt(store[hash(k)], k);
    c.Some? && !Expired(c.value, now)
  }

  ghost function LiveAmong(store: seq<seq<Cell>>, hash: string -> nat, keys: seq<string>, now: nat): set<string>
    requires |store| == BUCKETS && Hashing(hash)
  {
    set k | k in keys && Live(store, hash, k, now)
  }

  /** One DEL seen from a key. */
  lemma DelStep(store: seq<seq<Cell>>, hash: string -> nat, key: string, now: nat, k: string)
    requires WellKept(store, hash)
    ensures var (answer, store') := Step(store, hash, Del(key), now, Leave);
      && WellKept(store', hash)
      && answer == Count(if Live(store, hash, key, now) then 1 else 0)
      && CellAt(store'[hash(k)], k) == if k == key then None else CellAt(store[hash(k)], k)
  {
    StepKeepsStore(store, hash, Del(key), now, Leave);
    var b := store[hash(key)];
    assert BucketKept(b, hash, hash(key));
    var i := Find(b, key);
    if i < |b| { UnlinkSpec(b, i, k); }
  }

  lemma LiveSnoc(store: seq<seq<Cell>>, hash: string -> nat, keys: seq<string>, now: nat)
    requires |store| == BUCKETS && Hashing(hash) && keys != []
    ensures var before, key := keys[..|keys| - 1], keys[|keys| - 1];
      LiveAmong(store, hash, keys, now) ==
        LiveAmong(store, hash, before, now) + if Live(store, hash, key, now) then {key} else {}
  {
    var before, key := keys[..|keys| - 1], keys[|keys| - 1];
    assert forall k :: k in keys <==> k in before || k == key by {
      assert keys == before + [key];
    }
  }

  /** What is left of a key when some keys were deleted. */
  ghost predicate LeftAs(store: seq<seq<Cell>>, store': seq<seq<Cell>>, hash: string -> nat, keys: seq<string>,
                         k: string)
    requires |store| == BUCKETS == |store'| && Hashing(hash)
  {
    CellAt(store'[hash(k)], k) == if k in keys then None else CellAt(store[hash(k)], k)
  }

  lemma DelNext(store: seq<seq<Cell>>, before: seq<seq<Cell>>, hash: string -> nat, keys: seq<string>, now: nat,
                k: string)
    requires |store| == BUCKETS && WellKept(before, hash) && keys != []
    requires LeftAs(store, before, hash, keys[..|keys| - 1], k)
    ensures LeftAs(store, Step(before, hash, Del(keys[|keys| - 1]), now, Leave).1, hash, keys, k)
  {
    DelStep(before, hash, keys[|keys| - 1], now, k);
    assert keys == keys[..|keys| - 1] + [keys[|keys| - 1]];
  }

  lemma {:induction false} DelAllLeaves(store: seq<seq<Cell>>, hash: string -> nat, keys: seq<string>, now: nat)
    requires WellKept(store, hash)
    ensures var store' := DelAll(store, hash, keys, now).1;
      && WellKept(store', hash)
      && forall k {:trigger LeftAs(store, store', hash, keys, k)} :: LeftAs(store, store', hash, keys, k)
    decreases |keys|
  {
    if keys != [] {
      var front := keys[..|keys| - 1];
      DelAllLeaves(store, hash, front, now);
      var before := DelAll(store, hash, front, now).1;
      forall k
        ensures LeftAs(store, DelAll(store, hash, keys, now).1, hash, keys, k)
      {
        assert LeftAs(store, before, hash, front, k);
        DelNext(store, before, hash, keys, now, k);
      }
      DelStep(before, hash, keys[|keys| - 1], now, keys[|keys| - 1]);
    }
  }

  lemma {:induction false} DelAllCounts(store: seq<seq<Cell>>, hash: string -> nat, keys: seq<string>, now: nat)
    requires WellKept(store, hash)
    ensures DelAll(store, hash, keys, now).0 == |LiveAmong(store, hash, keys, now)|
    decreases |keys|
  {
    if keys == [] {
      assert LiveAmong(store, hash, keys, now) == {};
    } else {
      var key, front := keys[|keys| - 1], keys[..|keys| - 1];
      DelAllCounts(store, hash, front, now);
      DelAllLeaves(store, hash, front, now);
      var before := DelAll(store, hash, front, now).1;
      LiveSnoc(store, hash, keys, now);
      assert LeftAs(store, before, hash, front, key);
      DelStep(before, hash, key, now, key);
    }
  }

  /** DEL's count is the number of distinct live keys among its arguments; afterwards every one of
      them is gone, and no other key has changed. */
  lemma {:induction false} DelAllSpec(store: seq<seq<Cell>>, hash: string -> nat, keys: seq<string>, now: nat)
    requires WellKept(store, hash)
    ensures var (n, store') := DelAll(store, hash, keys, now);
      && WellKept(store', hash)
      && n == |LiveAmong(store, hash, keys, now)|
      && forall k {:trigger LeftAs(store, store', hash, keys, k)} :: LeftAs(store, store', hash, keys, k)
  {
    DelAllLeaves(store, hash, keys, now);
    DelAllCounts(store, hash, keys, now);
  }

  lemma {:induction false} DelAllRefines(store: seq<seq<Cell>>, m: map<string, Cell>, hash: string -> nat,
                                         keys: seq<string>, now: nat)
    requires WellKept(store, hash) && Agrees(store, m, hash, now)
    ensures var (n, store') := DelAll(store, hash, keys, now);
      var (expected, m') := IdealDelAll(m, keys, now);
      n == expected && WellKept(store', hash) && Agrees(store', m', hash, now)
    decreases |keys|
  {
    if keys != [] {
      var front := keys[..|keys| - 1];
      DelAllRefines(store, m, hash, front, now);
      var before, m' := DelAll(store, hash, front, now).1, IdealDelAll(m, front, now).1;
      StepRefines(before, m', hash, Del(keys[|keys| - 1]), now, Leave);
    }
  }

  // ----- one command -----

  /** A SET that finds an expired node, with or without XX: the guard of the shipped branch that frees
      a node and leaves it in its list. */
  predicate FindsStale(store: seq<seq<Cell>>, hash: string -> nat, cmd: Command, now: nat)
    requires |store| == BUCKETS && forall k :: hash(k) < BUCKETS
  {
    cmd.SET? && SetPlanOf(cmd.args).Asked? &&
    FreesInPlace(store[hash(SetPlanOf(cmd.args).op.key)], SetPlanOf(cmd.args).op, now)
  }

  lemma PlanOp(cmd: Command, found: Option<Value>)
    requires Reads(cmd) && Early(cmd).None?
    ensures Plan(cmd, found).1.Some? ==>
      Called(Plan(cmd, found).1.value) && !Plan(cmd, found).1.value.SetEx? && Plan(cmd, found).1.value.key == KeyOf(cmd)
  {
  }

  lemma EmptyKept(hash: string -> nat, now: nat)
    requires Hashing(hash)
    ensures WellKept(EmptyStore(), hash) && Agrees(EmptyStore(), map[], hash, now)
  {
    assert forall h :: 0 <= h < BUCKETS ==> BucketKept(EmptyStore()[h], hash, h);
  }

  /** One command refines the clocked map: same reply, and every key shows the same after it.  Sorted
      sets are kept in removal's order, as ZSpec says. */
  lemma ExecRefines(store: seq<seq<Cell>>, m: map<string, Cell>, hash: string -> nat, cmd: Command, now: nat,
                    rule: StaleRule)
    requires WellKept(store, hash) && Agrees(store, m, hash, now)
    requires rule.Unlink? || !FindsStale(store, hash, cmd, now)
    ensures var (reply, store') := Exec(store, hash, cmd, now, rule);
      var (expected, m') := IdealExec(m, cmd, now);
      reply == expected && WellKept(store', hash) && Agrees(store', m', hash, now)
  {
    if Early(cmd).None? {
      if cmd.SET? {
        StepRefines(store, m, hash, SetPlanOf(cmd.args).op, now, rule);
      } else if cmd.DEL? {
        DelAllRefines(store, m, hash, cmd.args[1..], now);
      } else if cmd.FLUSHALL? {
        EmptyKept(hash, now);
      } else {
        ReadRefines(store, m, hash, cmd, now, rule);
      }
    }
  }

  lemma ReadRefines(store: seq<seq<Cell>>, m: map<string, Cell>, hash: string -> nat, cmd: Command, now: nat,
                    rule: StaleRule)
    requires WellKept(store, hash) && Agrees(store, m, hash, now)
    requires Reads(cmd) && Early(cmd).None?
    ensures var (reply, store') := Exec(store, hash, cmd, now, rule);
      var (expected, m') := IdealExec(m, cmd, now);
      reply == expected && WellKept(store', hash) && Agrees(store', m', hash, now)
  {
    var get := Get(KeyOf(cmd));
    StepRefines(store, m, hash, get, now, rule);
    var (found, read) := Step(store, hash, get, now, rule);
    PlanOp(cmd, found.value);
    var op := Plan(cmd, found.value).1;
    if op.Some? { StepRefines(read, m, hash, op.value, now, rule); }
  }

  // ----- runs -----

  datatype Timed = Timed(cmd: Command, now: nat)

  /** The clock does not go back. */
  predicate InTime(run: seq<Timed>, start: nat) {
    run == [] || (start <= run[0].now && InTime(run[1..], run[0].now))
  }

  function ExecAll(store: seq<seq<Cell>>, hash: string -> nat, run: seq<Timed>,
                   rule: StaleRule): (seq<Reply>, seq<seq<Cell>>)
    requires |store| == BUCKETS && forall k :: hash(k) < BUCKETS
    decreases |run|
  {
    if run == [] then ([], store)
    else
      var (reply, store') := Exec(store, hash, run[0].cmd, run[0].now, rule);
      var (replies, end) := ExecAll(store', hash, run[1..], rule);
      ([reply] + replies, end)
  }

  function IdealExecAll(m: map<string, Cell>, run: seq<Timed>): (seq<Reply>, map<string, Cell>)
    decreases |run|
  {
    if run == [] then ([], m)
    else
      var (reply, m') := IdealExec(m, run[0].cmd, run[0].now);
      var (replies, end) := IdealExecAll(m', run[1..]);
      ([reply] + replies, end)
  }

  /** No SET of the run finds an expired node. */
  ghost predicate NeverFindsStale(store: seq<seq<Cell>>, hash: string -> nat, run: seq<Timed>, rule: StaleRule)
    requires |store| == BUCKETS && Hashing(hash)
    decreases |run|
  {
    run == [] ||
    (!FindsStale(store, hash, run[0].cmd, run[0].now) &&
     NeverFindsStale(Exec(store, hash, run[0].cmd, run[0].now, rule).1, hash, run[1..], rule))
  }

  /** Every pair that the run writes can be put in its place by insertion's own tie-break, at any
      heights of towers. */
  ghost predicate SafeThroughout(store: seq<seq<Cell>>, hash: string -> nat, run: seq<Timed>, rule: StaleRule)
    requires |store| == BUCKETS && Hashing(hash)
    decreases |run|
  {
    run == [] ||
    (SafeExec(store, hash, run[0].cmd, run[0].now) &&
     SafeThroughout(Exec(store, hash, run[0].cmd, run[0].now, rule).1, hash, run[1..], rule))
  }

  function EndOf(run: seq<Timed>, start: nat): nat {
    if run == [] then start else run[|run| - 1].now
  }

  /** Over every run with a clock that does not go back, the store replies like the map, shows the
      same, and keeps each key once and in its own bucket: with the intended unlinking always, as
      shipped as long as no SET finds an expired node.  Sorted sets are in removal's order; when nodes
      keep them so under insertion's own tie-break is SafeThroughout. */
  lemma {:induction false} RunRefines(store: seq<seq<Cell>>, m: map<string, Cell>, hash: string -> nat,
                                      run: seq<Timed>, start: nat, rule: StaleRule)
    requires WellKept(store, hash) && Agrees(store, m, hash, start) && InTime(run, start)
    requires rule.Unlink? || NeverFindsStale(store, hash, run, rule)
    ensures var (replies, end) := ExecAll(store, hash, run, rule);
      var (expected, m') := IdealExecAll(m, run);
      replies == expected && WellKept(end, hash) && Agrees(end, m', hash, EndOf(run, start))
    decreases |run|
  {
    if run != [] {
      var cmd, now := run[0].cmd, run[0].now;
      AgreesLater(store, m, hash, start, now);
      ExecRefines(store, m, hash, cmd, now, rule);
      RunRefines(Exec(store, hash, cmd, now, rule).1, IdealExec(m, cmd, now).1, hash, run[1..], now, rule);
    }
  }

  // ----- sorted sets in the store -----

  /** ZADD is a read, and then a write of what it makes of the set found. */
  lemma ExecZadd(store: seq<seq<Cell>>, hash: string -> nat, args: seq<string>, now: nat)
    requires WellHashed(store, hash) && |args| >= 4
    ensures var (found, read) := Step(store, hash, Get(args[1]), now, Leave);
      var (reply, op) := ZaddPlan(args, found.value);
      Exec(store, hash, ZADD(args), now, Leave) ==
        (reply, if op.Some? then Step(read, hash, op.value, now, Leave).1 else read)
  {
    var found := Step(store, hash, Get(args[1]), now, Leave).0;
    assert Plan(ZADD(args), found.value) == ZaddPlan(args, found.value);
  }

  /** A stored sorted set is in order, has one entry per member, and is not empty. */
  ghost predicate Proper(c: Cell) {
    c.value.Scores? ==> WellFormed(c.value.entries) && c.value.entries != []
  }

  ghost predicate AllProper(m: map<string, Cell>) {
    forall k {:trigger m[k]} :: k in m ==> m[k].key == k && Proper(m[k])
  }

  lemma {:induction false} DelAllProper(m: map<string, Cell>, keys: seq<string>, now: nat)
    requires AllProper(m)
    ensures AllProper(IdealDelAll(m, keys, now).1)
    decreases |keys|
  {
    if keys != [] { DelAllProper(m, keys[..|keys| - 1], now); }
  }

  /** What ZADD does to a map, in terms of the set it finds. */
  lemma ZaddOnMap(m: map<string, Cell>, args: seq<string>, now: nat)
    requires |args| >= 4 && !(LiveAt(m, args[1], now) && !m[args[1]].value.Scores?)
    ensures var key := args[1];
      var s := if LiveAt(m, key, now) then m[key].value.entries else [];
      var (reply, s') := ZSpec.ZaddReply(s, args);
      IdealExec(m, ZADD(args), now) ==
        (reply, if s' == [] then m - {key} else m[key := Cell(key, Scores(s'), DEFAULT_EXPIRY_MS)])
  {
    var found := if LiveAt(m, args[1], now) then Some(m[args[1]].value) else None;
    assert Ideal(m, Get(args[1]), now).0 == Found(found);
    assert Plan(ZADD(args), found) == ZaddPlan(args, found);
  }

  lemma ZaddKeepsProper(m: map<string, Cell>, args: seq<string>, now: nat)
    requires AllProper(m) && |args| >= 4
    ensures AllProper(IdealExec(m, ZADD(args), now).1)
  {
    if !(LiveAt(m, args[1], now) && !m[args[1]].value.Scores?) {
      ZaddOnMap(m, args, now);
      ZSpec.ZaddSafe(if LiveAt(m, args[1], now) then m[args[1]].value.entries else [], args);
    }
  }

  /** No command leaves an empty or disordered sorted set behind. */
  lemma ExecKeepsProper(m: map<string, Cell>, cmd: Command, now: nat)
    requires AllProper(m)
    ensures AllProper(IdealExec(m, cmd, now).1)
  {
    if Early(cmd).None? {
      if cmd.DEL? {
        DelAllProper(m, cmd.args[1..], now);
      } else if cmd.ZADD? {
        ZaddKeepsProper(m, cmd.args, now);
      }
    }
  }

  lemma SameScoresShow(m: map<string, Cell>, key: string, s: seq<Entry>, k: string, later: nat)
    requires key in m && m[key].key == key && m[key].value == Scores(s)
    ensures Visible(MapAt(m[key := Cell(key, Scores(s), DEFAULT_EXPIRY_MS)], k), later) == Visible(MapAt(m, k), later)
  {
  }

  lemma DeadGone(m: map<string, Cell>, key: string, now: nat, k: string, later: nat)
    requires !LiveAt(m, key, now) && now <= later
    ensures Visible(MapAt(m - {key}, k), later) == Visible(MapAt(m, k), later)
  {
  }

  /** ZADD is all or nothing: when it answers an error or null, or only updates and finds no set,
      no key shows anything else than before, now or later. */
  lemma ZaddAllOrNothing(m: map<string, Cell>, args: seq<string>, now: nat, k: string, later: nat)
    requires AllProper(m) && now <= later
    requires var reply := IdealExec(m, ZADD(args), now).0;
      reply.Error? || reply.Null? ||
      (!LiveAt(m, args[1], now) && ZSpec.RequestOf(args).Add? && ZSpec.RequestOf(args).xx)
    ensures Visible(MapAt(IdealExec(m, ZADD(args), now).1, k), later) == Visible(MapAt(m, k), later)
  {
    if |args| >= 4 {
      var key := args[1];
      if LiveAt(m, key, now) {
        if m[key].value.Scores? {
          ZaddOnMap(m, args, now);
          ZSpec.ZaddSafe(m[key].value.entries, args);
          SameScoresShow(m, key, m[key].value.entries, k, later);
        }
      } else {
        ZaddOnMap(m, args, now);
        ZSpec.ZaddSafe([], args);
        DeadGone(m, key, now, k, later);
      }
    }
  }

  // ----- the same on the buckets -----

  ghost predicate ProperBucket(b: seq<Cell>) {
    forall i {:trigger b[i]} :: 0 <= i < |b| ==> Proper(b[i])
  }

  ghost predicate ProperStore(store: seq<seq<Cell>>) {
    forall h {:trigger store[h]} :: 0 <= h < |store| ==> ProperBucket(store[h])
  }

  ghost predicate ProperValue(value: Option<Value>) {
    value.Some? && value.value.Scores? ==> WellFormed(value.value.entries) && value.value.entries != []
  }

  ghost predicate ProperOp(op: Op) {
    op.Put? ==> ProperValue(Some(op.value))
  }

  lemma StepProper(store: seq<seq<Cell>>, hash: string -> nat, op: Op, now: nat, rule: StaleRule)
    requires ProperStore(store) && hash(op.key) < |store| && ProperOp(op)
    ensures var (answer, store') := Step(store, hash, op, now, rule);
      ProperStore(store') && (op.Get? ==> ProperValue(answer.value))
  {
    var b := store[hash(op.key)];
    assert ProperBucket(b);
    var i := Find(b, op.key);
    assert i < |b| ==> Proper(b[i]) && ProperBucket(Unlinked(b, i));
    assert ProperBucket(StepB(b, op, now, rule).1);
  }

  lemma ZaddPlanProper(args: seq<string>, found: Option<Value>)
    requires |args| >= 4 && ProperValue(found)
    ensures var op := ZaddPlan(args, found).1; op.Some? ==> ProperOp(op.value)
  {
    if found.None? || found.value.Scores? {
      ZSpec.ZaddSafe(if found.Some? then found.value.entries else [], args);
    }
  }

  lemma PlanProper(cmd: Command, found: Option<Value>)
    requires Reads(cmd) && Early(cmd).None? && ProperValue(found)
    ensures var op := Plan(cmd, found).1; op.Some? ==> ProperOp(op.value)
  {
    if cmd.ZADD? { ZaddPlanProper(cmd.args, found); }
  }

  lemma {:induction false} DelAllProperStore(store: seq<seq<Cell>>, hash: string -> nat, keys: seq<string>, now: nat)
    requires ProperStore(store) && |store| == BUCKETS && Hashing(hash)
    ensures ProperStore(DelAll(store, hash, keys, now).1)
    decreases |keys|
  {
    if keys != [] {
      DelAllProperStore(store, hash, keys[..|keys| - 1], now);
      StepProper(DelAll(store, hash, keys[..|keys| - 1], now).1, hash, Del(keys[|keys| - 1]), now, Leave);
    }
  }

  /** No command leaves an empty or disordered sorted set in a bucket, under either rule for expired
      nodes. */
  lemma ExecProper(store: seq<seq<Cell>>, hash: string -> nat, cmd: Command, now: nat, rule: StaleRule)
    requires WellHashed(store, hash) && ProperStore(store)
    ensures ProperStore(Exec(store, hash, cmd, now, rule).1)
  {
    if Early(cmd).None? {
      if cmd.SET? {
        StepProper(store, hash, SetPlanOf(cmd.args).op, now, rule);
      } else if cmd.DEL? {
        DelAllProperStore(store, hash, cmd.args[1..], now);
      } else if Reads(cmd) {
        ReadProper(store, hash, cmd, now, rule);
      }
    }
  }

  lemma ReadProper(store: seq<seq<Cell>>, hash: string -> nat, cmd: Command, now: nat, rule: StaleRule)
    requires WellHashed(store, hash) && ProperStore(store) && Reads(cmd) && Early(cmd).None?
    ensures ProperStore(Exec(store, hash, cmd, now, rule).1)
  {
    var get := Get(KeyOf(cmd));
    StepProper(store, hash, get, now, rule);
    var (found, read) := Step(store, hash, get, now, rule);
    PlanProper(cmd, found.value);
    PlanOp(cmd, found.value);
    var op := Plan(cmd, found.value).1;
    if op.Some? { StepProper(read, hash, op.value, now, rule); }
  }

  /** Nor does any run of commands from an empty store. */
  lemma {:induction false} RunProper(store: seq<seq<Cell>>, hash: string -> nat, run: seq<Timed>, rule: StaleRule)
    requires WellHashed(store, hash) && (ProperStore(store) || store == EmptyStore())
    ensures ProperStore(ExecAll(store, hash, run, rule).1)
    decreases |run|
  {
    if run != [] {
      ExecProper(store, hash, run[0].cmd, run[0].now, rule);
      RunProper(Exec(store, hash, run[0].cmd, run[0].now, rule).1, hash, run[1..], rule);
    }
  }

  /** Putting back the value that was just read changes no cell. */
  lemma PutBack(b: seq<Cell>, key: string, now: nat)
    requires GetB(b, key, now).0.value.Some?
    ensures GetB(b, key, now).1 == b == PutB(b, key, GetB(b, key, now).0.value.value).1
  {
    var i := Find(b, key);
    assert b[i] == Cell(key, b[i].value, b[i].expiry);
  }

  /** Deleting what was just not found changes no cell. */
  lemma DelMissing(b: seq<Cell>, key: string, now: nat)
    requires DistinctKeys(b) && GetB(b, key, now).0.value.None?
    ensures DelB(GetB(b, key, now).1, key, now).1 == GetB(b, key, now).1
  {
    var i := Find(b, key);
    if i < |b| {
      UnlinkSpec(b, i, key);
      assert CellAt(Unlinked(b, i), key) == None;
    }
  }

  /** A ZADD that answers an error or null, or only updates and finds no set, does to the buckets
      just what a read of its key does. */
  lemma ZaddReadsOnly(store: seq<seq<Cell>>, hash: string -> nat, args: seq<string>, now: nat)
    requires WellKept(store, hash) && ProperStore(store) && |args| >= 4
    requires var reply := Exec(store, hash, ZADD(args), now, Leave).0;
      reply.Error? || reply.Null? ||
      (!Live(store, hash, args[1], now) && ZSpec.RequestOf(args).Add? && ZSpec.RequestOf(args).xx)
    ensures Exec(store, hash, ZADD(args), now, Leave).1 == Step(store, hash, Get(args[1]), now, Leave).1
  {
    var key := args[1];
    var b := store[hash(key)];
    assert BucketKept(b, hash, hash(key)) && ProperBucket(b);
    ExecZadd(store, hash, args, now);
    var (found, read) := Step(store, hash, Get(key), now, Leave);
    StepProper(store, hash, Get(key), now, Leave);
    if found.value.None? {
      ZSpec.ZaddSafe([], args);
      DelMissing(b, key, now);
      assert read[hash(key) := read[hash(key)]] == read;
    } else if found.value.value.Scores? {
      ZSpec.ZaddSafe(found.value.value.entries, args);
      PutBack(b, key, now);
      assert store[hash(key) := b] == store;
    }
  }

  lemma GetFinds(store: seq<seq<Cell>>, hash: string -> nat, key: string, now: nat, rule: StaleRule)
    requires WellHashed(store, hash)
    ensures Step(store, hash, Get(key), now, rule).0 ==
      Found(if Live(store, hash, key, now) then Some(CellAt(store[hash(key)], key).value.value) else None)
  {
  }

  lemma ExecZcount(store: seq<seq<Cell>>, hash: string -> nat, key: string, min: string, max: string, now: nat,
                   rule: StaleRule)
    requires WellHashed(store, hash)
    ensures Exec(store, hash, ZCOUNT(key, min, max), now, rule).0 ==
      Plan(ZCOUNT(key, min, max), Step(store, hash, Get(key), now, rule).0.value).0
  {
  }

  /** ZCOUNT on a missing key answers 0 whatever its bounds are; on a set it refuses a bad one. */
  lemma ZcountBounds(store: seq<seq<Cell>>, hash: string -> nat, key: string, min: string, max: string, now: nat,
                     rule: StaleRule)
    requires WellHashed(store, hash)
    ensures var reply := Exec(store, hash, ZCOUNT(key, min, max), now, rule).0;
      && (!Live(store, hash, key, now) ==> reply == ZSpec.Integer(0))
      && (Live(store, hash, key, now) && CellAt(store[hash(key)], key).value.value.Scores? ==>
        (reply == ZSpec.Error(MIN_OR_MAX_IS_NOT_A_FLOAT) <==> BoundOf(min).None? || BoundOf(max).None?))
  {
    ExecZcount(store, hash, key, min, max, now, rule);
    GetFinds(store, hash, key, now, rule);
  }
}
