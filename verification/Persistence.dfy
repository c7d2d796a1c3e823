/** SAVE and LOAD (ds/commands.c:377-422, 578-789): what a store is written as, and what the file
    makes of an empty store. */
module Persistence {
  import opened CStrings
  import opened Decimal
  import opened SortedSet
  import opened SkipShape
  import TieBreak
  import opened Store
  import opened CommandSpec
  import opened CommandRuns
  import opened Dump

  // ----- what is written -----

  /** writeSkiplistToFile (ds/commands.c:621-655): a record for every entry, in order. */
  function ScoreRecords(key: string, s: seq<Entry>): (rs: seq<Record>)
    ensures |rs| == |s|
  {
    if s == [] then []
    else
      var e := s[|s| - 1];
      ScoreRecords(key, s[..|s| - 1]) + [ScoreRecord(key, DoubleToString(e.score), e.member)]
  }

  function CellRecords(c: Cell): seq<Record> {
    match c.value
    case Text(str) => [TextRecord(c.key, str, Digits(c.expiry))]
    case Bits(words) => [BitsRecord(c.key, words)]
    case Scores(s) => ScoreRecords(c.key, s)
  }

  function BucketRecords(b: seq<Cell>): seq<Record> {
    if b == [] then [] else BucketRecords(b[..|b| - 1]) + CellRecords(b[|b| - 1])
  }

  function StoreRecords(store: seq<seq<Cell>>): seq<Record> {
    if store == [] then [] else StoreRecords(store[..|store| - 1]) + BucketRecords(store[|store| - 1])
  }

  // ----- what a record does when it is read -----

  const ULONG_MAX := 0xffff_ffff_ffff_ffff

  /** The expiry read back: stringToLongLong's -1 becomes the largest unsigned number. */
  function ExpiryOf(s: string): nat {
    match LongLongOf(s)
    case Some(n) => n
    case None => ULONG_MAX
  }

  /** The request that a sorted set's record is replayed as. */
  function Replay(key: string, score: string, member: string): (args: seq<string>)
    ensures |args| == 4 && args[1] == key && args[2] == score && args[3] == member
  {
    seq(4, i => if i == 0 then "ZADD" else if i == 1 then key else if i == 2 then score else member)
  }

  function ZaddArgs(r: Record): seq<string>
    requires r.ScoreRecord?
  {
    Replay(r.key, r.score, r.member)
  }

  /** loadHashMapEntry, loadBitmapEntry and loadSkiplistEntry (ds/commands.c:698-789). */
  function Apply(store: seq<seq<Cell>>, hash: string -> nat, r: Record, now: nat): (a: (bool, seq<seq<Cell>>))
    requires |store| == BUCKETS && forall k :: hash(k) < BUCKETS
    ensures |a.1| == BUCKETS
  {
    match r
    case TextRecord(key, str, expiry) => (true, Loaded(store, hash, key, str, ExpiryOf(expiry), now))
    case BitsRecord(key, words) => (true, Step(store, hash, Put(key, Bits(words)), now, Leave).1)
    case ScoreRecord(_, _, _) =>
      var (reply, store') := Exec(store, hash, ZADD(ZaddArgs(r)), now, Leave);
      (reply == ZSpec.Integer(1), store')
  }

  /** What makes of a store and a record whether it was taken, and the store after it. */
  type Loader = (seq<seq<Cell>>, Record) -> (bool, seq<seq<Cell>>)

  /** The record adds nothing that insertion's own tie-break could put elsewhere. */
  ghost predicate SafeRecord(store: seq<seq<Cell>>, hash: string -> nat, r: Record, now: nat)
    requires |store| == BUCKETS && forall k :: hash(k) < BUCKETS
  {
    r.ScoreRecord? ==> SafeExec(store, hash, ZADD(ZaddArgs(r)), now)
  }

  /** With removal's tie-break in insertion every record is applied; with insertion's own one, only
      while the place of its entry does not depend on tower heights. */
  ghost function LoaderOf(hash: string -> nat, now: nat, rule: TieRule): Loader
    requires forall k :: hash(k) < BUCKETS
  {
    (store: seq<seq<Cell>>, r: Record) =>
      if |store| == BUCKETS && (rule.NextKey? || SafeRecord(store, hash, r, now)) then Apply(store, hash, r, now)
      else (false, store)
  }

  /** Records one after the other, until one fails. */
  function ApplyAll(load: Loader, store: seq<seq<Cell>>, rs: seq<Record>): (bool, seq<seq<Cell>>) {
    if rs == [] then (true, store)
    else
      var (ok, before) := ApplyAll(load, store, rs[..|rs| - 1]);
      if ok then load(before, rs[|rs| - 1]) else (false, before)
  }

  lemma {:induction false} ApplyBoth(load: Loader, store: seq<seq<Cell>>, a: seq<Record>, b: seq<Record>)
    requires ApplyAll(load, store, a).0
    ensures ApplyAll(load, store, a + b) == ApplyAll(load, ApplyAll(load, store, a).1, b)
    decreases |b|
  {
    if b == [] {
      assert a + b == a;
    } else {
      ApplyBoth(load, store, a, b[..|b| - 1]);
      assert (a + b)[..|a + b| - 1] == a + b[..|b| - 1];
      assert (a + b)[|a + b| - 1] == b[|b| - 1];
    }
  }

  lemma {:induction false} ApplyOne(load: Loader, store: seq<seq<Cell>>, r: Record)
    ensures ApplyAll(load, store, [r]) == load(store, r)
  {
    assert [r][..0] == [] && ApplyAll(load, store, []) == (true, store);
  }

  ghost predicate LoadsAt(load: Loader, hash: string -> nat, now: nat, rule: TieRule, store: seq<seq<Cell>>, r: Record)
    requires Hashing(hash)
  {
    |store| == BUCKETS ==>
      load(store, r) ==
        if rule.NextKey? || SafeRecord(store, hash, r, now) then Apply(store, hash, r, now) else (false, store)
  }

  /** The loader is loadFromDB's, at one time and with one tie-break. */
  ghost predicate Loads(load: Loader, hash: string -> nat, now: nat, rule: TieRule)
    requires Hashing(hash)
  {
    forall store, r {:trigger LoadsAt(load, hash, now, rule, store, r)} :: LoadsAt(load, hash, now, rule, store, r)
  }

  /** What fails early fails. */
  lemma {:induction false} FailsEarly(load: Loader, store: seq<seq<Cell>>, a: seq<Record>, b: seq<Record>)
    requires !ApplyAll(load, store, a).0
    ensures !ApplyAll(load, store, a + b).0
    decreases |b|
  {
    if b == [] {
      assert a + b == a;
    } else {
      FailsEarly(load, store, a, b[..|b| - 1]);
      assert (a + b)[..|a + b| - 1] == a + b[..|b| - 1];
    }
  }

  // ----- what is kept -----

  /** What a dump preserves: expiries a long long can hold, ordered and nonempty sets with scores of
      at most six decimals and an integer part that fits an int, members without NUL, and lengths
      that fit eight bytes. */
  ghost predicate Storable(c: Cell) {
    && Short(c.key) && Proper(c)
    && match c.value
      case Text(str) => Short(str) && c.expiry <= LL_MAX
      case Bits(words) => |words| < Pow256(NUMBER_SIZE)
      case Scores(s) => forall i {:trigger s[i]} :: 0 <= i < |s| ==> StorableEntry(s[i])
  }

  ghost predicate StorableEntry(e: Entry) {
    SixDecimals(e.score) && IntSized(e.score) && Short(e.member) && Plain(e.member)
  }

  /** Only strings keep their expiry. */
  function Reset(c: Cell): Cell {
    if c.value.Text? then c else c.(expiry := DEFAULT_EXPIRY_MS)
  }

  function KeptCell(c: Cell, now: nat): seq<Cell> {
    if Expired(c, now) then [] else [Reset(c)]
  }

  /** The cells of a bucket that are live, in the same order. */
  function Kept(b: seq<Cell>, now: nat): seq<Cell> {
    if b == [] then [] else Kept(b[..|b| - 1], now) + KeptCell(b[|b| - 1], now)
  }

  function KeptBuckets(store: seq<seq<Cell>>, now: nat): (r: seq<seq<Cell>>)
    ensures |r| == |store|
  {
    seq(|store|, h requires 0 <= h < |store| => Kept(store[h], now))
  }

  // ----- one entry of a sorted set -----

  lemma PlainText(x: real)
    ensures Plain(DoubleToString(x))
  {
    var n := Round6(if x < 0.0 then -x else x);
    MagnitudePlain(n);
    assert Plain("-" + Magnitude(n)) by {
      assert forall c :: c in "-" + Magnitude(n) ==> c == '-' || c in Magnitude(n);
    }
    var s := FullText(x);
    assert forall c :: c in DoubleToString(x) ==> c in s;
  }

  lemma MagnitudePlain(n: nat)
    ensures Plain(Magnitude(n))
  {
    SixDigits();
    var a, c := Digits(n / MILLION), Padded(n % MILLION, 6);
    assert Magnitude(n) == a + "." + c;
    assert forall i :: 0 <= i < |a| ==> IsDigit(a[i]);
    assert forall i :: 0 <= i < |c| ==> IsDigit(c[i]);
  }

  /** What loading a sorted set's entry asks ZADD for. */
  lemma LoneZadd(s: seq<Entry>, key: string, t: string, m: string, x: real)
    requires !Has(s, m) && ZSpec.LooksLikeScore(t) && ScoreOf(t) == Some(x)
    ensures ZSpec.ZaddReply(s, Replay(key, t, m)) == (ZSpec.Integer(1), Insert(s, Entry(x, m)))
  {
    var args := Replay(key, t, m);
    ZSpec.LoneRequest(args);
    assert args[2..] == [t, m];
    ZSpec.LonePair(args[2..]);
    ZSpec.LoneFold(s, false, false, Entry(x, m));
    assert Remove(s, m) == s;
  }

  lemma LoneFits(key: string, t: string, m: string)
    requires ZSpec.LooksLikeScore(t) && Plain(t) && Plain(m)
    ensures ZSpec.ZaddFits(Replay(key, t, m)) <==> ScoreFits(t)
  {
    var args := Replay(key, t, m);
    ZSpec.LoneRequest(args);
    var pairs := args[2..];
    assert pairs == [t, m] && |pairs| / 2 == 1;
    assert ZSpec.PairFits(pairs, 0) <==> ScoreFits(t);
  }

  lemma SameInserted(s: seq<Entry>, m: string, x: real, y: real)
    requires WellFormed(s) && !Has(s, m) && Insert(s, Entry(x, m)) == Insert(s, Entry(y, m))
    ensures x == y
  {
    ZSpec.InsertSpec(s, Entry(x, m));
    ZSpec.InsertSpec(s, Entry(y, m));
    var t := Insert(s, Entry(x, m));
    assert ToMap(t)[m] == x && ToMap(t)[m] == y;
  }

  /** The ZADD that loading replays for a new member is read without overflow, answers 1 and adds the
      saved entry at its place in removal's order, if and only if the score has at most six decimals
      and fits an int. */
  lemma ReplayedZadd(s: seq<Entry>, key: string, e: Entry)
    requires WellFormed(s) && !Has(s, e.member) && Plain(e.member)
    ensures var args := Replay(key, DoubleToString(e.score), e.member);
      ZSpec.ZaddFits(args) && ZSpec.ZaddReply(s, args) == (ZSpec.Integer(1), Insert(s, e))
      <==> SixDecimals(e.score) && IntSized(e.score)
  {
    var t, x := DoubleToString(e.score), e.score;
    var n := Round6(if x < 0.0 then -x else x);
    ScoreStart(x);
    PlainText(x);
    LoneFits(key, t, e.member);
    PrintedText(x, n);
    ScoreRoundTrip(x);
    if ScoreFits(t) {
      var y := ScoreOf(t).value;
      LoneZadd(s, key, t, e.member, y);
      if Insert(s, Entry(y, e.member)) == Insert(s, e) { SameInserted(s, e.member, y, x); }
    }
  }

  /** The next entry of a sorted set goes to the end of those before it. */
  lemma InsertNext(s: seq<Entry>, j: nat)
    requires WellFormed(s) && j < |s|
    ensures WellFormed(s[..j]) && !Has(s[..j], s[j].member) && Insert(s[..j], s[j]) == s[..j + 1]
  {
    TieBreak.FrontWellFormed(s, j);
    var front := s[..j];
    forall i | 0 <= i < j
      ensures EntryLess(front[i], s[j])
    {
      assert EntryLess(s[i], s[j]);
    }
    CutUnique(front, s[j], j);
  }

  // ----- one cell -----

  /** The bucket b, to which a key it does not have brings a set, if that is not empty. */
  function WithScores(b: seq<Cell>, key: string, s: seq<Entry>): seq<Cell> {
    if s == [] then b else b + [Cell(key, Scores(s), DEFAULT_EXPIRY_MS)]
  }

  lemma {:induction false} ReadScores(b: seq<Cell>, key: string, s: seq<Entry>, now: nat)
    requires Find(b, key) == |b|
    ensures GetB(WithScores(b, key, s), key, now) ==
      (Found(if s == [] then None else Some(Scores(s))), WithScores(b, key, s))
  {
    if s != [] { FindIs(WithScores(b, key, s), key, |b|); }
  }

  lemma {:induction false} WriteScores(b: seq<Cell>, key: string, s: seq<Entry>, s': seq<Entry>)
    requires Find(b, key) == |b| && s' != []
    ensures PutB(WithScores(b, key, s), key, Scores(s')).1 == WithScores(b, key, s')
  {
    if s != [] {
      FindIs(WithScores(b, key, s), key, |b|);
      var c, c' := Cell(key, Scores(s), DEFAULT_EXPIRY_MS), Cell(key, Scores(s'), DEFAULT_EXPIRY_MS);
      assert (b + [c])[|b| := c'] == b + [c'];
    }
  }

  lemma Unwritten(store: seq<seq<Cell>>, h: nat)
    requires h < |store|
    ensures store[h := store[h]] == store
  {
  }

  lemma GetLeaves(store: seq<seq<Cell>>, hash: string -> nat, key: string, now: nat, value: Option<Value>)
    requires hash(key) < |store| && GetB(store[hash(key)], key, now) == (Found(value), store[hash(key)])
    ensures Step(store, hash, Get(key), now, Leave) == (Found(value), store)
  {
    Unwritten(store, hash(key));
  }

  lemma AddingPlan(args: seq<string>, s: seq<Entry>, s': seq<Entry>)
    requires |args| >= 4 && s' != [] && ZSpec.ZaddReply(s, args) == (ZSpec.Integer(1), s')
    ensures ZaddPlan(args, if s == [] then None else Some(Scores(s))) ==
      (ZSpec.Integer(1), Some(Put(args[1], Scores(s'))))
  {
  }

  /** A replayed ZADD that adds to the set of a key, or makes it. */
  lemma {:induction false} ReplayOnBucket(store: seq<seq<Cell>>, hash: string -> nat, b: seq<Cell>, args: seq<string>,
                       s: seq<Entry>, s': seq<Entry>, now: nat)
    requires WellHashed(store, hash) && |args| >= 4 && s' != [] && Find(b, args[1]) == |b|
    requires store[hash(args[1])] == WithScores(b, args[1], s)
    requires ZSpec.ZaddReply(s, args) == (ZSpec.Integer(1), s')
    ensures Exec(store, hash, ZADD(args), now, Leave) ==
      (ZSpec.Integer(1), store[hash(args[1]) := WithScores(b, args[1], s')])
  {
    ExecZadd(store, hash, args, now);
    ReadScores(b, args[1], s, now);
    GetLeaves(store, hash, args[1], now, if s == [] then None else Some(Scores(s)));
    AddingPlan(args, s, s');
    WriteScores(b, args[1], s, s');
  }

  /** The reply to the replay of entry i. */
  lemma EntryReply(key: string, s: seq<Entry>, i: nat)
    requires WellFormed(s) && i < |s| && StorableEntry(s[i])
    ensures ZSpec.ZaddReply(s[..i], Replay(key, DoubleToString(s[i].score), s[i].member)) ==
      (ZSpec.Integer(1), s[..i + 1])
  {
    InsertNext(s, i);
    ReplayedZadd(s[..i], key, s[i]);
  }

  /** Entry i can be put behind those before it: with removal's tie-break always, with insertion's own
      when no heights can put it elsewhere. */
  ghost predicate SafeEntry(s: seq<Entry>, i: nat, rule: TieRule)
    requires i < |s|
  {
    rule.NextKey? || TieBreak.SafeAtAnyHeight(s[..i], s[i])
  }

  ghost predicate SafeUpTo(s: seq<Entry>, j: nat, rule: TieRule)
    requires j <= |s|
  {
    forall i {:trigger SafeEntry(s, i, rule)} :: 0 <= i < j ==> SafeEntry(s, i, rule)
  }

  /** The record of an entry takes the store to the next one if the entry is safe, and is refused if
      it is not. */
  ghost predicate EntryLoads(load: Loader, store: seq<seq<Cell>>, h: nat, key: string, s: seq<Entry>, i: nat,
                             rule: TieRule)
    requires h < |store| && i < |s|
  {
    var r := ScoreRecord(key, DoubleToString(s[i].score), s[i].member);
    var loaded := load(store[h := WithScores(store[h], key, s[..i])], r);
    if SafeEntry(s, i, rule) then loaded == (true, store[h := WithScores(store[h], key, s[..i + 1])]) else !loaded.0
  }

  lemma {:induction false} LoneSafe(s: seq<Entry>, key: string, t: string, m: string, x: real)
    requires !Has(s, m) && ZSpec.LooksLikeScore(t) && ScoreOf(t) == Some(x)
    ensures ZSpec.SafeRequest(s, ZSpec.RequestOf(Replay(key, t, m))) <==> TieBreak.SafeAtAnyHeight(s, Entry(x, m))
  {
    var args := Replay(key, t, m);
    ZSpec.LoneRequest(args);
    assert args[2..] == [t, m];
    ZSpec.LonePair(args[2..]);
    var batch := [Entry(x, m)];
    assert batch[..0] == [] && Remove(s, m) == s;
    assert ZSpec.SafePair(s, false, false, batch, 0) <==> TieBreak.SafeAtAnyHeight(s, Entry(x, m));
  }

  /** The replay of entry i is safe exactly when the entry is. */
  lemma EntrySafe(key: string, s: seq<Entry>, i: nat)
    requires WellFormed(s) && i < |s| && StorableEntry(s[i])
    ensures ZSpec.SafeRequest(s[..i], ZSpec.RequestOf(Replay(key, DoubleToString(s[i].score), s[i].member))) <==>
      TieBreak.SafeAtAnyHeight(s[..i], s[i])
  {
    InsertNext(s, i);
    var t, x := DoubleToString(s[i].score), s[i].score;
    var n := Round6(if x < 0.0 then -x else x);
    ScoreStart(x);
    PrintedText(x, n);
    ScoreRoundTrip(x);
    LoneSafe(s[..i], key, t, s[i].member, x);
  }

  lemma {:induction false} ScoreLoaded(load: Loader, before: seq<seq<Cell>>, hash: string -> nat, b: seq<Cell>,
                                       r: Record, s: seq<Entry>, s': seq<Entry>, now: nat, rule: TieRule)
    requires WellHashed(before, hash) && Loads(load, hash, now, rule) && r.ScoreRecord?
    requires Find(b, r.key) == |b| && s' != [] && before[hash(r.key)] == WithScores(b, r.key, s)
    requires ZSpec.ZaddReply(s, ZaddArgs(r)) == (ZSpec.Integer(1), s')
    ensures if rule.NextKey? || ZSpec.SafeRequest(s, ZSpec.RequestOf(ZaddArgs(r)))
      then load(before, r) == (true, before[hash(r.key) := WithScores(b, r.key, s')])
      else !load(before, r).0
  {
    hide ZSpec.ZaddReply, ZSpec.SafeRequest, ZSpec.RequestOf, Exec, Step, WithScores;
    assert LoadsAt(load, hash, now, rule, before, r);
    ReplayOnBucket(before, hash, b, ZaddArgs(r), s, s', now);
    ReadScores(b, r.key, s, now);
    GetLeaves(before, hash, r.key, now, if s == [] then None else Some(Scores(s)));
  }

  lemma WrittenTwice(store: seq<seq<Cell>>, h: nat, x: seq<Cell>, y: seq<Cell>)
    requires h < |store|
    ensures store[h := x][h := y] == store[h := y]
  {
  }

  lemma {:induction false} EntryLoaded(load: Loader, store: seq<seq<Cell>>, hash: string -> nat, key: string,
                                       s: seq<Entry>, i: nat, now: nat, rule: TieRule)
    requires WellHashed(store, hash) && Loads(load, hash, now, rule)
    requires Find(store[hash(key)], key) == |store[hash(key)]|
    requires WellFormed(s) && i < |s| && StorableEntry(s[i])
    ensures EntryLoads(load, store, hash(key), key, s, i, rule)
  {
    var h, b := hash(key), store[hash(key)];
    var r := ScoreRecord(key, DoubleToString(s[i].score), s[i].member);
    EntryReply(key, s, i);
    EntrySafe(key, s, i);
    WrittenTwice(store, h, WithScores(b, key, s[..i]), WithScores(b, key, s[..i + 1]));
    ScoreLoaded(load, store[h := WithScores(b, key, s[..i])], hash, b, r, s[..i], s[..i + 1], now, rule);
  }

  /** One entry after the other, until one is not safe. */
  ghost predicate EntriesLoad(load: Loader, store: seq<seq<Cell>>, h: nat, key: string, s: seq<Entry>, j: nat,
                              rule: TieRule)
    requires h < |store| && j <= |s|
  {
    var loaded := ApplyAll(load, store, ScoreRecords(key, s[..j]));
    if SafeUpTo(s, j, rule) then loaded == (true, store[h := WithScores(store[h], key, s[..j])]) else !loaded.0
  }

  lemma {:induction false} SafeUpToNext(s: seq<Entry>, i: nat, rule: TieRule)
    requires i < |s|
    ensures SafeUpTo(s, i + 1, rule) <==> SafeUpTo(s, i, rule) && SafeEntry(s, i, rule)
  {
  }

  lemma {:induction false} NextEntry(load: Loader, store: seq<seq<Cell>>, h: nat, key: string, s: seq<Entry>, i: nat,
                                     rule: TieRule)
    requires h < |store| && i < |s|
    requires EntriesLoad(load, store, h, key, s, i, rule) && EntryLoads(load, store, h, key, s, i, rule)
    ensures EntriesLoad(load, store, h, key, s, i + 1, rule)
  {
    hide SafeUpTo, SafeEntry, WithScores, ScoreRecords, ApplyAll;
    var front, r := ScoreRecords(key, s[..i]), ScoreRecord(key, DoubleToString(s[i].score), s[i].member);
    ScoreRecordsNext(key, s, i);
    SafeUpToNext(s, i, rule);
    if SafeUpTo(s, i, rule) {
      ApplyBoth(load, store, front, [r]);
      ApplyOne(load, store[h := WithScores(store[h], key, s[..i])], r);
    } else {
      FailsEarly(load, store, front, [r]);
    }
  }

  lemma {:induction false} AllEntriesLoad(load: Loader, store: seq<seq<Cell>>, h: nat, key: string, s: seq<Entry>,
                                          j: nat, rule: TieRule)
    requires h < |store| && j <= |s|
    requires forall i {:trigger EntryLoads(load, store, h, key, s, i, rule)} :: 0 <= i < j ==>
      EntryLoads(load, store, h, key, s, i, rule)
    ensures EntriesLoad(load, store, h, key, s, j, rule)
    decreases j
  {
    hide EntryLoads;
    if j == 0 {
      assert s[..0] == [] && store[h := store[h]] == store;
    } else {
      AllEntriesLoad(load, store, h, key, s, j - 1, rule);
      assert EntryLoads(load, store, h, key, s, j - 1, rule);
      NextEntry(load, store, h, key, s, j - 1, rule);
    }
  }

  /** A cell that loading puts back as it was: with removal's tie-break in insertion any; with its own
      one any but a sorted set with an entry that ties with the one before it and is not above
      "sentinel" and every lower-scored member. */
  ghost predicate SafeCell(c: Cell, rule: TieRule) {
    rule.NextKey? || (c.value.Scores? ==> TieBreak.TiesAboveLeads(c.value.entries))
  }

  /** Loading what was written for a cell appends it to its bucket, unless it expired; a set that is
      not safe is not taken. */
  ghost predicate CellLoads(load: Loader, store: seq<seq<Cell>>, h: nat, c: Cell, now: nat, rule: TieRule)
    requires h < |store|
  {
    var loaded := ApplyAll(load, store, CellRecords(c));
    if SafeCell(c, rule) then loaded == (true, store[h := store[h] + KeptCell(c, now)]) else !loaded.0
  }

  lemma {:induction false} LoadScores(load: Loader, store: seq<seq<Cell>>, hash: string -> nat, c: Cell, now: nat,
                                      rule: TieRule)
    requires WellHashed(store, hash) && Loads(load, hash, now, rule) && Storable(c) && c.value.Scores?
    requires Find(store[hash(c.key)], c.key) == |store[hash(c.key)]|
    ensures CellLoads(load, store, hash(c.key), c, now, rule)
  {
    var s := c.value.entries;
    forall i | 0 <= i < |s|
      ensures EntryLoads(load, store, hash(c.key), c.key, s, i, rule)
    {
      EntryLoaded(load, store, hash, c.key, s, i, now, rule);
    }
    AllEntriesLoad(load, store, hash(c.key), c.key, s, |s|, rule);
    assert s[..|s|] == s;
    SafeAll(s, rule);
  }

  lemma SafeAll(s: seq<Entry>, rule: TieRule)
    requires WellFormed(s)
    ensures SafeUpTo(s, |s|, rule) <==> rule.NextKey? || TieBreak.TiesAboveLeads(s)
  {
    TieBreak.SafeRebuildExact(s);
    assert forall i {:trigger SafeEntry(s, i, rule)} {:trigger s[i]} :: 0 <= i < |s| ==>
      (SafeEntry(s, i, rule) <==> rule.NextKey? || TieBreak.SafeAtAnyHeight(s[..i], s[i]));
  }

  lemma {:induction false} ExpiryBack(n: nat)
    requires n <= LL_MAX
    ensures ExpiryOf(Digits(n)) == n
  {
  }

  lemma LoadText(load: Loader, store: seq<seq<Cell>>, hash: string -> nat, c: Cell, now: nat, rule: TieRule)
    requires WellHashed(store, hash) && Loads(load, hash, now, rule) && Storable(c) && c.value.Text?
    ensures CellLoads(load, store, hash(c.key), c, now, rule)
  {
    var r := TextRecord(c.key, c.value.str, Digits(c.expiry));
    ApplyOne(load, store, r);
    assert LoadsAt(load, hash, now, rule, store, r);
    ExpiryBack(c.expiry);
    assert store[hash(c.key)] + [] == store[hash(c.key)];
  }

  lemma LoadBits(load: Loader, store: seq<seq<Cell>>, hash: string -> nat, c: Cell, now: nat, rule: TieRule)
    requires WellHashed(store, hash) && Loads(load, hash, now, rule) && c.value.Bits?
    requires Find(store[hash(c.key)], c.key) == |store[hash(c.key)]|
    ensures CellLoads(load, store, hash(c.key), c, now, rule)
  {
    var r := BitsRecord(c.key, c.value.words);
    ApplyOne(load, store, r);
    assert LoadsAt(load, hash, now, rule, store, r);
  }

  /** Any cell: with removal's tie-break in insertion it is put back; with insertion's own one if and
      only if it is safe. */
  lemma LoadCell(load: Loader, store: seq<seq<Cell>>, hash: string -> nat, c: Cell, now: nat, rule: TieRule)
    requires WellHashed(store, hash) && Loads(load, hash, now, rule) && Storable(c)
    requires Find(store[hash(c.key)], c.key) == |store[hash(c.key)]|
    ensures CellLoads(load, store, hash(c.key), c, now, rule)
  {
    match c.value
    case Text(_) => LoadText(load, store, hash, c, now, rule);
    case Bits(_) => LoadBits(load, store, hash, c, now, rule);
    case Scores(_) => LoadScores(load, store, hash, c, now, rule);
  }

  // ----- buckets and the store -----

  lemma {:induction false} KeptKeys(b: seq<Cell>, now: nat, key: string)
    requires forall i {:trigger b[i]} :: 0 <= i < |b| ==> b[i].key != key
    ensures Find(Kept(b, now), key) == |Kept(b, now)|
    decreases |b|
  {
    if b != [] {
      KeptKeys(b[..|b| - 1], now, key);
      FindFails(Kept(b, now), key);
    }
  }

  ghost predicate AllStorable(b: seq<Cell>) {
    forall i {:trigger b[i]} :: 0 <= i < |b| ==> Storable(b[i])
  }

  lemma LastKey(b: seq<Cell>)
    requires DistinctKeys(b) && b != []
    ensures DistinctKeys(b[..|b| - 1])
    ensures forall i {:trigger b[..|b| - 1][i]} :: 0 <= i < |b| - 1 ==> b[..|b| - 1][i].key != b[|b| - 1].key
  {
    var front := b[..|b| - 1];
    forall x, y | 0 <= x < y < |front|
      ensures KeysApart(front, x, y)
    {
      assert KeysApart(b, x, y);
    }
    forall i | 0 <= i < |front|
      ensures front[i].key != b[|b| - 1].key
    {
      assert KeysApart(b, i, |b| - 1);
    }
  }

  ghost predicate SafeBucket(b: seq<Cell>, rule: TieRule) {
    forall i {:trigger b[i]} :: 0 <= i < |b| ==> SafeCell(b[i], rule)
  }

  /** Loading the records of a bucket turns the empty bucket h into what is kept of it, or stops at a
      set that is not safe. */
  ghost predicate BucketLoads(load: Loader, store: seq<seq<Cell>>, b: seq<Cell>, h: nat, now: nat, rule: TieRule)
    requires h < |store|
  {
    var loaded := ApplyAll(load, store, BucketRecords(b));
    if SafeBucket(b, rule) then loaded == (true, store[h := Kept(b, now)]) else !loaded.0
  }

  lemma SafeBucketNext(b: seq<Cell>, rule: TieRule)
    requires b != []
    ensures SafeBucket(b, rule) <==> SafeBucket(b[..|b| - 1], rule) && SafeCell(b[|b| - 1], rule)
  {
    hide SafeCell;
    assert b == b[..|b| - 1] + [b[|b| - 1]];
  }

  lemma {:induction false} NextCell(load: Loader, store: seq<seq<Cell>>, b: seq<Cell>, h: nat, now: nat, rule: TieRule)
    requires h < |store| && b != [] && BucketLoads(load, store, b[..|b| - 1], h, now, rule)
    requires CellLoads(load, store[h := Kept(b[..|b| - 1], now)], h, b[|b| - 1], now, rule)
    ensures BucketLoads(load, store, b, h, now, rule)
  {
    hide SafeBucket, SafeCell, CellRecords;
    var front, c := b[..|b| - 1], b[|b| - 1];
    SafeBucketNext(b, rule);
    if SafeBucket(front, rule) {
      ApplyBoth(load, store, BucketRecords(front), CellRecords(c));
      assert store[h := Kept(front, now)][h := Kept(b, now)] == store[h := Kept(b, now)];
    } else {
      FailsEarly(load, store, BucketRecords(front), CellRecords(c));
    }
  }

  lemma {:induction false} LoadBucket(load: Loader, store: seq<seq<Cell>>, hash: string -> nat, b: seq<Cell>, h: nat,
                                      now: nat, rule: TieRule)
    requires WellHashed(store, hash) && Loads(load, hash, now, rule) && h < BUCKETS && store[h] == []
    requires BucketKept(b, hash, h) && AllStorable(b)
    ensures BucketLoads(load, store, b, h, now, rule)
    decreases |b|
  {
    if b == [] {
      assert store[h := []] == store;
    } else {
      var front, c := b[..|b| - 1], b[|b| - 1];
      LastKey(b);
      LoadBucket(load, store, hash, front, h, now, rule);
      KeptKeys(front, now, c.key);
      LoadCell(load, store[h := Kept(front, now)], hash, c, now, rule);
      NextCell(load, store, b, h, now, rule);
    }
  }

  /** The first h buckets kept, the others empty. */
  function KeptUpTo(store: seq<seq<Cell>>, h: nat, now: nat): (r: seq<seq<Cell>>)
    requires |store| == BUCKETS
    ensures |r| == BUCKETS
  {
    seq(BUCKETS, g requires 0 <= g < BUCKETS => if g < h then Kept(store[g], now) else [])
  }

  lemma {:induction false} KeptOneMore(store: seq<seq<Cell>>, g: nat, now: nat)
    requires |store| == BUCKETS && g < BUCKETS
    ensures KeptUpTo(store, g, now)[g] == []
    ensures KeptUpTo(store, g, now)[g := Kept(store[g], now)] == KeptUpTo(store, g + 1, now)
  {
  }

  ghost predicate SafeStore(store: seq<seq<Cell>>, h: nat, rule: TieRule)
    requires h <= |store|
  {
    forall g {:trigger store[g]} :: 0 <= g < h ==> SafeBucket(store[g], rule)
  }

  /** What the first h buckets were written as makes them again, or stops at a set that is not safe. */
  ghost predicate StoreLoads(load: Loader, store: seq<seq<Cell>>, h: nat, now: nat, rule: TieRule)
    requires |store| == BUCKETS && h <= BUCKETS
  {
    var loaded := ApplyAll(load, EmptyStore(), StoreRecords(store[..h]));
    if SafeStore(store, h, rule) then loaded == (true, KeptUpTo(store, h, now)) else !loaded.0
  }

  lemma SafeStoreNext(store: seq<seq<Cell>>, g: nat, rule: TieRule)
    requires g < |store|
    ensures SafeStore(store, g + 1, rule) <==> SafeStore(store, g, rule) && SafeBucket(store[g], rule)
  {
    hide SafeBucket;
  }

  lemma NextBucket(load: Loader, store: seq<seq<Cell>>, g: nat, now: nat, rule: TieRule)
    requires |store| == BUCKETS && g < BUCKETS && StoreLoads(load, store, g, now, rule)
    requires BucketLoads(load, KeptUpTo(store, g, now), store[g], g, now, rule)
    ensures StoreLoads(load, store, g + 1, now, rule)
  {
    hide SafeBucket, SafeStore, BucketRecords, Kept;
    var front := store[..g + 1];
    assert front[..g] == store[..g] && front[g] == store[g];
    assert StoreRecords(front) == StoreRecords(store[..g]) + BucketRecords(store[g]);
    SafeStoreNext(store, g, rule);
    if SafeStore(store, g, rule) {
      ApplyBoth(load, EmptyStore(), StoreRecords(store[..g]), BucketRecords(store[g]));
      KeptOneMore(store, g, now);
    } else {
      FailsEarly(load, EmptyStore(), StoreRecords(store[..g]), BucketRecords(store[g]));
    }
  }

  lemma {:induction false} LoadBuckets(load: Loader, store: seq<seq<Cell>>, hash: string -> nat, h: nat, now: nat,
                                       rule: TieRule)
    requires WellKept(store, hash) && Loads(load, hash, now, rule) && h <= BUCKETS
    requires forall g {:trigger store[g]} :: 0 <= g < BUCKETS ==> AllStorable(store[g])
    ensures StoreLoads(load, store, h, now, rule)
  {
    if h == 0 {
      assert KeptUpTo(store, 0, now) == EmptyStore();
    } else {
      var g := h - 1;
      LoadBuckets(load, store, hash, g, now, rule);
      assert BucketKept(store[g], hash, g);
      KeptOneMore(store, g, now);
      LoadBucket(load, KeptUpTo(store, g, now), hash, store[g], g, now, rule);
      NextBucket(load, store, g, now, rule);
    }
  }

  // ----- the file as a whole -----

  predicate OkAt(ok: Record -> bool, rs: seq<Record>, i: nat)
    requires i < |rs|
  {
    ok(rs[i])
  }

  /** Every record passes a test. */
  predicate AllOk(ok: Record -> bool, rs: seq<Record>) {
    forall i {:trigger OkAt(ok, rs, i)} :: 0 <= i < |rs| ==> OkAt(ok, rs, i)
  }

  lemma AllOkBoth(ok: Record -> bool, a: seq<Record>, b: seq<Record>)
    requires AllOk(ok, a) && AllOk(ok, b)
    ensures AllOk(ok, a + b)
  {
    forall i | 0 <= i < |a + b|
      ensures OkAt(ok, a + b, i)
    {
      assert if i < |a| then OkAt(ok, a, i) else OkAt(ok, b, i - |a|);
    }
  }

  lemma {:induction false} ScoreRecordsNext(key: string, s: seq<Entry>, j: nat)
    requires j < |s|
    ensures ScoreRecords(key, s[..j + 1]) ==
      ScoreRecords(key, s[..j]) + [ScoreRecord(key, DoubleToString(s[j].score), s[j].member)]
  {
    assert s[..j + 1][..j] == s[..j];
  }

  predicate EntryOk(ok: Record -> bool, key: string, s: seq<Entry>, i: nat)
    requires i < |s|
  {
    ok(ScoreRecord(key, DoubleToString(s[i].score), s[i].member))
  }

  lemma {:induction false} ScoresOk(ok: Record -> bool, key: string, s: seq<Entry>, j: nat)
    requires j <= |s| && forall i {:trigger EntryOk(ok, key, s, i)} :: 0 <= i < j ==> EntryOk(ok, key, s, i)
    ensures AllOk(ok, ScoreRecords(key, s[..j]))
    decreases j
  {
    if j != 0 {
      var i := j - 1;
      var r := ScoreRecord(key, DoubleToString(s[i].score), s[i].member);
      ScoresOk(ok, key, s, i);
      ScoreRecordsNext(key, s, i);
      assert EntryOk(ok, key, s, i);
      AllOkBoth(ok, ScoreRecords(key, s[..i]), [r]);
    }
  }

  predicate CellOk(ok: Record -> bool, c: Cell) {
    AllOk(ok, CellRecords(c))
  }

  lemma {:induction false} BucketOk(ok: Record -> bool, b: seq<Cell>, j: nat)
    requires j <= |b| && forall i {:trigger CellOk(ok, b[i])} :: 0 <= i < j ==> CellOk(ok, b[i])
    ensures AllOk(ok, BucketRecords(b[..j]))
    decreases j
  {
    if j != 0 {
      var front := b[..j];
      BucketOk(ok, b, j - 1);
      assert front[..j - 1] == b[..j - 1] && CellOk(ok, b[j - 1]);
      AllOkBoth(ok, BucketRecords(b[..j - 1]), CellRecords(b[j - 1]));
    }
  }

  lemma {:induction false} StoreOk(ok: Record -> bool, store: seq<seq<Cell>>, j: nat)
    requires j <= |store|
    requires forall g, i {:trigger CellOk(ok, store[g][i])} :: 0 <= g < j && 0 <= i < |store[g]| ==>
      CellOk(ok, store[g][i])
    ensures AllOk(ok, StoreRecords(store[..j]))
    decreases j
  {
    if j != 0 {
      var front, b := store[..j], store[j - 1];
      StoreOk(ok, store, j - 1);
      assert b[..|b|] == b;
      BucketOk(ok, b, |b|);
      assert front[..j - 1] == store[..j - 1];
      AllOkBoth(ok, StoreRecords(store[..j - 1]), BucketRecords(b));
    }
  }

  lemma EightBytes()
    ensures Pow256(NUMBER_SIZE) > 0xffff_ffff
  {
    assert Pow256(2) == 65536;
    assert Pow256(4) == 0x1_0000_0000;
  }

  lemma {:induction false} ShortDigits(n: nat)
    requires n <= LL_MAX
    ensures |Digits(n)| <= 19
  {
    assert Pow10(6) == 1000000;
    assert Pow10(12) == 1000000000000;
    assert Pow10(19) == 10000000000000000000;
    DigitsShort(n, 19);
  }

  lemma {:induction false} DigitsShort(n: nat, w: nat)
    requires n < Pow10(w) && w > 0
    ensures |Digits(n)| <= w
    decreases w
  {
    if n >= 10 { DigitsShort(n / 10, w - 1); }
  }

  lemma CellFits(c: Cell)
    requires Storable(c)
    ensures CellOk(Fits, c)
  {
    EightBytes();
    match c.value
    case Text(_) => ShortDigits(c.expiry);
    case Bits(_) =>
    case Scores(s) =>
      forall i | 0 <= i < |s|
        ensures EntryOk(Fits, c.key, s, i)
      {
        assert StorableEntry(s[i]);
      }
      assert s[..|s|] == s;
      ScoresOk(Fits, c.key, s, |s|);
  }

  /** What saveCommand writes. */
  function FileOf(store: seq<seq<Cell>>): string {
    EncodeAll(StoreRecords(store))
  }

  /** loadFromDB on a store: whether every record was taken, and the store after it; None when the
      file ends in the middle of a record. */
  function LoadFile(load: Loader, store: seq<seq<Cell>>, file: string): Option<(bool, seq<seq<Cell>>)> {
    match ReadAll(file)
    case None => None
    case Some(rs) => Some(ApplyAll(load, store, rs))
  }

  lemma LoaderLoads(hash: string -> nat, now: nat, rule: TieRule)
    requires Hashing(hash)
    ensures Loads(LoaderOf(hash, now, rule), hash, now, rule)
  {
  }

  lemma {:induction false} FileReads(store: seq<seq<Cell>>)
    requires forall g {:trigger store[g]} :: 0 <= g < |store| ==> AllStorable(store[g])
    ensures ReadAll(FileOf(store)) == Some(StoreRecords(store))
  {
    var rs := StoreRecords(store);
    forall g, i | 0 <= g < |store| && 0 <= i < |store[g]|
      ensures CellOk(Fits, store[g][i])
    {
      assert AllStorable(store[g]);
      CellFits(store[g][i]);
    }
    StoreOk(Fits, store, |store|);
    assert store[..|store|] == store;
    forall k | 0 <= k < |rs|
      ensures Fits(rs[k])
    {
      assert OkAt(Fits, rs, k);
    }
    ReadUndoesEncode(rs);
  }

  /** SAVE and then LOAD into an empty store.  With removal's tie-break in insertion the file is read
      to its end, every record is taken, and each bucket is again what it was, without the strings
      that expired by then.  With insertion's own one that is so, whatever the heights of the new
      towers, if and only if in every sorted set each entry that ties with the one before it is above
      "sentinel" and every lower-scored member; otherwise some heights put an entry elsewhere. */
  lemma LoadUndoesSave(load: Loader, store: seq<seq<Cell>>, hash: string -> nat, now: nat, rule: TieRule)
    requires WellKept(store, hash) && Loads(load, hash, now, rule)
    requires forall g {:trigger store[g]} :: 0 <= g < BUCKETS ==> AllStorable(store[g])
    ensures var loaded := LoadFile(load, EmptyStore(), FileOf(store));
      && loaded.Some?
      && if SafeStore(store, BUCKETS, rule) then loaded.value == (true, KeptBuckets(store, now)) else !loaded.value.0
  {
    FileReads(store);
    LoadBuckets(load, store, hash, BUCKETS, now, rule);
    assert store[..BUCKETS] == store;
    assert KeptUpTo(store, BUCKETS, now) == KeptBuckets(store, now);
  }

  // ----- what a reader sees of it -----

  /** What is kept of a cell that was found. */
  function KeptOf(c: Option<Cell>, now: nat): Option<Cell> {
    match c
    case None => None
    case Some(cell) => if Expired(cell, now) then None else Some(Reset(cell))
  }

  lemma {:induction false} KeptSnoc(b: seq<Cell>, kept: seq<Cell>, c: Cell, now: nat, k: string)
    requires DistinctKeys(b) && DistinctKeys(kept) && Find(b, c.key) == |b| && Find(kept, c.key) == |kept|
    requires CellAt(kept, k) == KeptOf(CellAt(b, k), now)
    ensures DistinctKeys(kept + KeptCell(c, now))
    ensures CellAt(kept + KeptCell(c, now), k) == KeptOf(CellAt(b + [c], k), now)
  {
    AppendSpec(b, c, k);
    if Expired(c, now) {
      assert kept + [] == kept;
    } else {
      AppendSpec(kept, Reset(c), k);
    }
    if k == c.key { assert CellAt(kept, k) == None; }
  }

  lemma {:induction false} KeptAt(b: seq<Cell>, now: nat, k: string)
    requires DistinctKeys(b)
    ensures DistinctKeys(Kept(b, now))
    ensures CellAt(Kept(b, now), k) == KeptOf(CellAt(b, k), now)
    decreases |b|
  {
    if b != [] {
      var front, c := b[..|b| - 1], b[|b| - 1];
      LastKey(b);
      KeptAt(front, now, k);
      KeptKeys(front, now, c.key);
      FindFails(front, c.key);
      KeptSnoc(front, Kept(front, now), c, now, k);
      assert b == front + [c];
    }
  }

  lemma {:induction false} KeptHashes(b: seq<Cell>, now: nat, hash: string -> nat, h: nat)
    requires forall i {:trigger b[i]} :: 0 <= i < |b| ==> hash(b[i].key) == h
    ensures forall i {:trigger Kept(b, now)[i]} :: 0 <= i < |Kept(b, now)| ==> hash(Kept(b, now)[i].key) == h
    decreases |b|
  {
    if b != [] {
      var front := b[..|b| - 1];
      assert forall i {:trigger front[i]} :: 0 <= i < |front| ==> front[i] == b[i];
      KeptHashes(front, now, hash, h);
    }
  }

  /** The loaded store keeps each key once and in its bucket, and every key shows the same as in the
      saved one, from the time of loading on. */
  lemma LoadedShowsSame(store: seq<seq<Cell>>, hash: string -> nat, now: nat, k: string, later: nat)
    requires WellKept(store, hash) && now <= later
    ensures WellKept(KeptBuckets(store, now), hash)
    ensures Visible(CellAt(KeptBuckets(store, now)[hash(k)], k), later) == Visible(CellAt(store[hash(k)], k), later)
  {
    var kept := KeptBuckets(store, now);
    forall h | 0 <= h < BUCKETS
      ensures BucketKept(kept[h], hash, h)
    {
      assert BucketKept(store[h], hash, h);
      KeptAt(store[h], now, k);
      KeptHashes(store[h], now, hash, h);
    }
    assert BucketKept(store[hash(k)], hash, hash(k));
    KeptAt(store[hash(k)], now, k);
  }
}
