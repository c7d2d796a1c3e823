/** The sorted-set commands over the skip list: ds/skiplist.c:37-148 and the list part of ZCOUNT
    and ZRANGE in ds/commands.c. */
module ZCommands {
  import opened CStrings
  import opened Decimal
  import opened SortedSet
  import opened SkipShape
  import opened TieBreak
  import opened SkipList
  import opened SkipRank
  import opened ZSpec

  lemma {:induction false} NoScoreNoTies(s: seq<Entry>, score: real)
    requires forall i {:trigger s[i]} :: 0 <= i < |s| ==> s[i].score != score
    ensures CountBelow(s, score, false) == CountBelow(s, score, true)
  {
    if s != [] {
      assert s[0].score != score;
      assert forall i :: 0 <= i < |s[1..]| ==> s[1..][i] == s[i + 1];
      NoScoreNoTies(s[1..], score);
    }
  }

  /** Without a tie the tests of insertion and removal lead to the same places. */
  lemma {:induction false} NoTieIsHarmless<T>(t: seq<seq<T>>, s: seq<Entry>, e: Entry, levels: nat)
    requires Towers(t, levels) && |t| == |s| + 1 && WellFormed(s) && !Has(s, e.member) && NoTie(s, e)
    ensures TieIsHarmless(t, s, e, levels)
    ensures forall i :: 0 <= i <= levels ==> Descend(t, s, e, OwnKey, levels, i) == Descend(t, s, e, NextKey, levels, i)
  {
    forall i | 0 <= i < |s|
      ensures s[i].score != e.score
    {
      HasAt(s, i);
    }
    NoScoreNoTies(s, e.score);
    TieBreakExact(t, s, e, levels);
    forall i | 0 <= i <= levels
      ensures Descend(t, s, e, OwnKey, levels, i) == Descend(t, s, e, NextKey, levels, i)
    {
      assert FindsPred(t, s, e, levels, i);
      DescendNextKey(t, s, e, levels, i);
    }
  }

  /** A score no other member has is safe. */
  lemma NoTieIsSafe(s: seq<Entry>, e: Entry)
    requires WellFormed(s) && NoTie(s, e)
    ensures SafeToWrite(s, e)
  {
    var u, k := Remove(s, e.member), IndexOf(s, e.member);
    RemovedAbsent(s, e.member);
    forall i | 0 <= i < |u|
      ensures u[i].score != e.score
    {
      HasAt(u, i);
      assert u[i] == s[if i < k then i else i + 1];
    }
    NoScoreNoTies(u, e.score);
  }

  /** A pair that is safe lands in its sorted place whatever the heights are. */
  lemma {:induction false} SafeLands<T>(t: seq<seq<T>>, s: seq<Entry>, e: Entry, levels: nat)
    requires Towers(t, levels) && |t| == |s| + 1 && WellFormed(s) && !Has(s, e.member) && SafeAtAnyHeight(s, e)
    ensures TieIsHarmless(t, s, e, levels) && Descend(t, s, e, OwnKey, levels, 0) == Cut(s, e)
  {
    SafeIsHarmless(t, s, e, levels);
    TieBreakExact(t, s, e, levels);
    assert FindsPred(t, s, e, levels, 0);
    assert PredPos(t, Cut(s, e), 0) == Cut(s, e) by { assert !Lower(t, Cut(s, e), 0); }
  }

  /** addNodeToSkiplist for a member that is absent, with the tower it makes. */
  method AddSafely(list: SkipList, e: Entry, raiseTo: nat, rule: TieRule) returns (top: SkipNode, ghost r: nat)
    requires list.Valid() && raiseTo < MAX_LEVEL && e.member !in list.table && Plain(e.member)
    requires rule.NextKey? || SafeAtAnyHeight(list.entries, e)
    modifies list, list.nodes
    ensures list.Valid() && fresh(list.nodes - old(list.nodes))
    ensures r == Cut(old(list.entries), e) && list.entries == InsertAt(old(list.entries), r, e)
    ensures Grown(old(list.towers), list.towers, r, raiseTo + 1) && top == list.towers[r + 1][raiseTo]
  {
    if rule.OwnKey? {
      SafeLands(list.towers, list.entries, e, list.levels);
    } else {
      DescendNextKey(list.towers, list.entries, e, list.levels, 0);
      assert PredPos(list.towers, Cut(list.entries, e), 0) == Cut(list.entries, e) by {
        assert !Lower(list.towers, Cut(list.entries, e), 0);
      }
    }
    top, r := list.AddNode(e.member, e.score, raiseTo, rule);
  }

  method AddNew(list: SkipList, e: Entry, raiseTo: nat, rule: TieRule)
    requires list.Valid() && raiseTo < MAX_LEVEL && e.member !in list.table && Plain(e.member)
    requires rule.NextKey? || SafeAtAnyHeight(list.entries, e)
    modifies list, list.nodes
    ensures list.Valid() && fresh(list.nodes - old(list.nodes))
    ensures list.entries == Insert(old(list.entries), e)
  {
    var top;
    ghost var r;
    top, r := AddSafely(list, e, raiseTo, rule);
  }

  /** Removal and insertion of a member that is present. */
  method Rewrite(list: SkipList, e: Entry, raiseTo: nat, rule: TieRule)
    requires list.Valid() && raiseTo < MAX_LEVEL && e.member in list.table && Plain(e.member)
    requires rule.NextKey? || SafeToWrite(list.entries, e)
    modifies list, list.nodes
    ensures list.Valid() && fresh(list.nodes - old(list.nodes))
    ensures list.entries == Insert(Remove(old(list.entries), e.member), e)
  {
    ghost var s := list.entries;
    var target := list.table[e.member];
    list.RemoveNode(e.member, target.score, target);
    assert list.entries == Remove(s, e.member);
    RemovedAbsent(s, e.member);
    AddNew(list, e, raiseTo, rule);
  }

  /** What is in the table is what is in the set. */
  lemma {:induction false} InTable(list: SkipList, m: string)
    requires list.Valid()
    ensures m in list.table <==> IndexOf(list.entries, m) < |list.entries|
  {
  }

  /** One round of the loop of ds/skiplist.c:83-110. */
  method ApplyPair(list: SkipList, xx: bool, nx: bool, e: Entry, raiseTo: nat, rule: TieRule)
    returns (inserted: nat, changed: nat)
    requires list.Valid() && raiseTo < MAX_LEVEL && Plain(e.member)
    requires rule.NextKey? || (Writes(list.entries, xx, nx, e.member) ==> SafeToWrite(list.entries, e))
    modifies list, list.nodes
    ensures list.Valid() && fresh(list.nodes - old(list.nodes))
    ensures list.entries == Step(old(list.entries), xx, nx, e)
    ensures inserted == InsertsOne(old(list.entries), xx, nx, e.member)
    ensures changed == ChangesOne(old(list.entries), xx, nx, e.member)
  {
    InTable(list, e.member);
    inserted, changed := 0, 0;
    if xx {
      if e.member in list.table {
        Rewrite(list, e, raiseTo, rule);
        changed := 1;
      }
    } else if nx {
      if e.member !in list.table {
        AddNew(list, e, raiseTo, rule);
        inserted := 1;
      }
    } else {
      if e.member in list.table {
        Rewrite(list, e, raiseTo, rule);
        changed := 1;
      } else {
        AddNew(list, e, raiseTo, rule);
        inserted := 1;
      }
    }
  }

  /** The sign and number of a score: ds/skiplist.c:331-341. */
  method ParseScore(s: string) returns (r: Option<real>)
    requires ScoreFits(s)
    ensures r == ScoreOf(s)
  {
    if s != [] && s[0] == '-' {
      r := StringToLongDouble(s[1..]);
      if r.Some? { r := Some(-1.0 * r.value); }
    } else {
      r := StringToLongDouble(s);
    }
  }

  lemma PairsStep(parse: string -> Option<real>, args: seq<string>, k: nat, pairs: seq<Entry>)
    requires 2 * k + 2 <= |args| && PairsUpTo(parse, args, k) == Some(pairs)
    ensures parse(args[2 * k]).Some? ==>
      PairsUpTo(parse, args, k + 1) == Some(pairs + [Entry(parse(args[2 * k]).value, args[2 * k + 1])])
    ensures parse(args[2 * k]).None? ==> PairsUpTo(parse, args, |args| / 2).None?
  {
    var j := k + 1;
    assert 2 * j - 2 == 2 * k;
    if parse(args[2 * k]).None? {
      assert !GoodScore(parse, args, k);
      PairsValid(parse, args, |args| / 2);
    }
  }

  /** One round of parseArgs. */
  method ParsePair(args: seq<string>, k: nat, pairs: seq<Entry>) returns (r: Option<seq<Entry>>)
    requires 2 * k + 2 <= |args| && PairsUpTo(ScoreOf, args, k) == Some(pairs) && PairFits(args, k)
    ensures r.Some? ==> PairsUpTo(ScoreOf, args, k + 1) == r
    ensures r.None? ==> PairsOf(args).None?
  {
    var score := ParseScore(args[2 * k]);
    PairsStep(ScoreOf, args, k, pairs);
    r := if score.None? then None else Some(pairs + [Entry(score.value, args[2 * k + 1])]);
  }

  /** parseArgs (ds/skiplist.c:322-349): every score is read before anything is changed. */
  method ParseArgs(args: seq<string>) returns (r: Option<seq<Entry>>)
    requires |args| % 2 == 0 && PairsFit(args)
    ensures r == PairsOf(args)
  {
    r := Some([]);
    var k := 0;
    ghost var n := |args| / 2;
    assert |args| == 2 * n;
    while 2 * k < |args|
      invariant 0 <= k <= n && r.Some? && PairsUpTo(ScoreOf, args, k) == r
    {
      assert PairFits(args, k);
      r := ParsePair(args, k, r.value);
      if r.None? { return; }
      k := k + 1;
    }
    assert k == n;
  }

  /** The state after i pairs of the batch. */
  ghost predicate Applied(s: seq<Entry>, xx: bool, nx: bool, batch: seq<Entry>, i: nat, now: seq<Entry>, inserts: nat,
                          changes: nat)
    requires i <= |batch|
  {
    && now == Fold(s, xx, nx, batch[..i])
    && inserts == Inserts(s, xx, nx, batch[..i]) && changes == Changes(s, xx, nx, batch[..i])
  }

  lemma {:induction false} FoldSnoc(s: seq<Entry>, xx: bool, nx: bool, before: seq<Entry>, e: Entry)
    ensures Fold(s, xx, nx, before + [e]) == Step(Fold(s, xx, nx, before), xx, nx, e)
    ensures Inserts(s, xx, nx, before + [e]) ==
      Inserts(s, xx, nx, before) + InsertsOne(Fold(s, xx, nx, before), xx, nx, e.member)
    ensures Changes(s, xx, nx, before + [e]) ==
      Changes(s, xx, nx, before) + ChangesOne(Fold(s, xx, nx, before), xx, nx, e.member)
  {
    assert (before + [e])[..|before + [e]| - 1] == before;
  }

  lemma {:induction false} AppliedNext(s: seq<Entry>, xx: bool, nx: bool, batch: seq<Entry>, i: nat, now: seq<Entry>,
                                       inserts: nat, changes: nat)
    requires i < |batch| && Applied(s, xx, nx, batch, i, now, inserts, changes)
    ensures Applied(s, xx, nx, batch, i + 1, Step(now, xx, nx, batch[i]),
                    inserts + InsertsOne(now, xx, nx, batch[i].member),
                    changes + ChangesOne(now, xx, nx, batch[i].member))
  {
    hide Fold, Step, Inserts, Changes, InsertsOne, ChangesOne;
    FoldSnoc(s, xx, nx, batch[..i], batch[i]);
    assert batch[..i + 1] == batch[..i] + [batch[i]];
  }

  /** ZADD k 1 b 1 a makes the set a (1.0), b (1.0) on an empty list under either tie-break and at any
      heights; TieBreak.RebuildSwaps says what becomes of it when it is put back in order. */
  lemma {:induction false} TwoTiesMade()
    ensures var a, b := Entry(1.0, "a"), Entry(1.0, "b");
      SafeBatch([], false, false, [b, a]) && Fold([], false, false, [b, a]) == [a, b]
  {
    var a, b := Entry(1.0, "a"), Entry(1.0, "b");
    var none: seq<Entry>, batch := [], [b, a];
    assert batch[..0] == none && batch[..1] == [b] && batch[..2] == batch;
    assert Less("a", "b") && !Less("b", "a") && !Less(SENTINEL_KEY, "a");
    assert Insert(none, b) == [b] && SafeToWrite(none, b);
    LoneFold(none, false, false, b);
    assert Fold([], false, false, [b]) == [b];
    assert Remove([b], "a") == [b] && Cut([b], a) == 0;
    assert CountBelow([b], 1.0, false) == 0 && CountBelow([b], 1.0, true) == 1;
    assert LeadsDecide([b], a, 0, false);
    assert SafePair([], false, false, batch, 0) && SafePair([], false, false, batch, 1);
  }

  /** One round of the loop of ds/skiplist.c:83-110, with its counters. */
  method ApplyNth(list: SkipList, xx: bool, nx: bool, batch: seq<Entry>, i: nat, raiseTo: nat, rule: TieRule,
                  inserts: nat, changes: nat, ghost s: seq<Entry>)
    returns (newInsert: nat, changed: nat)
    requires list.Valid() && i < |batch| && raiseTo < MAX_LEVEL && PlainMembers(batch)
    requires rule.NextKey? || SafeBatch(s, xx, nx, batch)
    requires Applied(s, xx, nx, batch, i, list.entries, inserts, changes)
    modifies list, list.nodes
    ensures list.Valid() && fresh(list.nodes - old(list.nodes))
    ensures Applied(s, xx, nx, batch, i + 1, list.entries, newInsert, changed)
  {
    AppliedNext(s, xx, nx, batch, i, list.entries, inserts, changes);
    assert rule.NextKey? || SafePair(s, xx, nx, batch, i);
    var ins, chg := ApplyPair(list, xx, nx, batch[i], raiseTo, rule);
    newInsert := inserts + ins;
    changed := changes + chg;
  }

  /** The loop of ds/skiplist.c:83-110. */
  method ApplyBatch(list: SkipList, xx: bool, nx: bool, batch: seq<Entry>, heights: seq<nat>, rule: TieRule)
    returns (newInsert: nat, changed: nat)
    requires list.Valid() && PlainMembers(batch)
    requires |batch| <= |heights| && forall i :: 0 <= i < |heights| ==> heights[i] < MAX_LEVEL
    requires rule.NextKey? || SafeBatch(list.entries, xx, nx, batch)
    modifies list, list.nodes
    ensures list.Valid() && fresh(list.nodes - old(list.nodes))
    ensures list.entries == Fold(old(list.entries), xx, nx, batch)
    ensures newInsert == Inserts(old(list.entries), xx, nx, batch)
    ensures changed == Changes(old(list.entries), xx, nx, batch)
  {
    newInsert, changed := 0, 0;
    var i := 0;
    ghost var s := list.entries;
    assert batch[..0] == [];
    while i < |batch|
      invariant 0 <= i <= |batch| && list.Valid() && fresh(list.nodes - old(list.nodes))
      invariant Applied(s, xx, nx, batch, i, list.entries, newInsert, changed)
    {
      newInsert, changed := ApplyNth(list, xx, nx, batch, i, heights[i], rule, newInsert, changed, s);
      i := i + 1;
    }
    assert i == |batch| && batch[..i] == batch;
  }

  /** addOrUpdateMember (ds/skiplist.c:73-117) refines the left fold of the batch, whatever heights
      the new towers get. */
  method AddOrUpdateMember(list: SkipList, xx: bool, nx: bool, ch: bool, args: seq<string>, heights: seq<nat>,
                           rule: TieRule)
    returns (reply: Reply)
    requires list.Valid() && |args| % 2 == 0 && PairsFit(args)
    requires |args| / 2 <= |heights| && forall i :: 0 <= i < |heights| ==> heights[i] < MAX_LEVEL
    requires rule.NextKey? || (PairsOf(args).Some? ==> SafeBatch(list.entries, xx, nx, PairsOf(args).value))
    modifies list, list.nodes
    ensures list.Valid() && fresh(list.nodes - old(list.nodes))
    ensures (reply, list.entries) == AddReply(old(list.entries), xx, nx, ch, args)
  {
    var parsed := ParseArgs(args);
    if parsed.None? { return Error(VALUE_IS_NOT_A_VALID_FLOAT); }
    PairsPlain(args);
    var newInsert, changed := ApplyBatch(list, xx, nx, parsed.value, heights, rule);
    reply := Integer(if ch then changed else newInsert);
  }

  lemma TargetScore(list: SkipList, m: string)
    requires list.Valid() && m in list.table
    ensures list.table[m].score == ScoreAt(list.entries, m)
  {
    var r := IndexOf(list.entries, m);
    var top := |list.towers[r + 1]| - 1;
    assert list.towers[r + 1][top] == list.table[m];
    assert Stands(list.towers, list.entries, r + 1, top);
  }

  /** ds/skiplist.c:130-144: the increment itself; no new score when NX meets a present member. */
  method Bump(list: SkipList, nx: bool, m: string, score: real, raiseTo: nat, rule: TieRule) returns (res: Option<real>)
    requires list.Valid() && raiseTo < MAX_LEVEL && Plain(m)
    requires rule.NextKey? || SafeBump(list.entries, nx, m, score)
    modifies list, list.nodes
    ensures list.Valid() && fresh(list.nodes - old(list.nodes))
    ensures res == if nx && Has(old(list.entries), m) then None else Some(ScoreAt(old(list.entries), m) + score)
    ensures list.entries ==
      if res.None? then old(list.entries) else Insert(Remove(old(list.entries), m), Entry(res.value, m))
  {
    InTable(list, m);
    var sum := 0.0;
    if m in list.table {
      if nx { return None; }
      TargetScore(list, m);
      var target := list.table[m];
      sum := sum + target.score;
      sum := sum + score;
      Rewrite(list, Entry(sum, m), raiseTo, rule);
    } else {
      sum := sum + score;
      AddNew(list, Entry(sum, m), raiseTo, rule);
    }
    res := Some(sum);
  }

  method IncrementBy(list: SkipList, nx: bool, m: string, score: real, raiseTo: nat, rule: TieRule)
    returns (reply: Reply)
    requires list.Valid() && raiseTo < MAX_LEVEL && Plain(m)
    requires rule.NextKey? || SafeBump(list.entries, nx, m, score)
    modifies list, list.nodes
    ensures list.Valid() && fresh(list.nodes - old(list.nodes))
    ensures (reply, list.entries) == IncrBy(old(list.entries), nx, m, score)
  {
    var res := Bump(list, nx, m, score, raiseTo, rule);
    reply := if res.None? then Null else Bulk(DoubleToString(res.value));
  }

  /** scoreIncrement (ds/skiplist.c:122-148). */
  method ScoreIncrement(list: SkipList, args: seq<string>, nx: bool, raiseTo: nat, rule: TieRule) returns (reply: Reply)
    requires list.Valid() && |args| == 2 && raiseTo < MAX_LEVEL && Plain(args[1]) && ScoreFits(args[0])
    requires rule.NextKey? ||
      (ScoreOf(args[0]).Some? ==> SafeBump(list.entries, nx, args[1], ScoreOf(args[0]).value))
    modifies list, list.nodes
    ensures list.Valid() && fresh(list.nodes - old(list.nodes))
    ensures (reply, list.entries) == IncrReply(old(list.entries), nx, args)
  {
    var score := ParseScore(args[0]);
    if score.None? { return Error(VALUE_IS_NOT_A_VALID_FLOAT); }
    reply := IncrementBy(list, nx, args[1], score.value, raiseTo, rule);
  }

  lemma SwitchesSnoc(a: seq<string>, x: string)
    ensures var sw, sw' := SwitchesIn(a), SwitchesIn(a + [x]);
      && sw'.xx == (sw.xx || x == "XX") && sw'.nx == (sw.nx || x == "NX")
      && sw'.ch == (sw.ch || x == "CH") && sw'.incr == (sw.incr || x == "INCR")
  {
  }

  lemma UpperedNext(args: seq<string>, i: nat)
    requires 2 <= i < |args|
    ensures Uppered(args, i)[i := Upper(args[i])] == Uppered(args, i + 1)
    ensures Uppered(args, i + 1)[2..i + 1] == Uppered(args, i)[2..i] + [Upper(args[i])]
  {
    assert Uppered(args, i)[i := Upper(args[i])] == Uppered(args, i + 1);
  }

  /** What parseSwitches has done when it comes to argument i. */
  ghost predicate SwitchesRead(args: seq<string>, i: nat, now: seq<string>, sw: Switches) {
    && 2 <= i <= |args| && ScoresStart(args, i) == ScoresStart(args, 2)
    && now == Uppered(args, i) && sw == SwitchesIn(now[2..i])
  }

  function WithSwitch(sw: Switches, x: string): Switches {
    if x == "NX" then sw.(nx := true)
    else if x == "XX" then sw.(xx := true)
    else if x == "CH" then sw.(ch := true)
    else if x == "INCR" then sw.(incr := true)
    else sw
  }

  lemma {:induction false} ReadSwitch(args: seq<string>, i: nat, now: seq<string>, sw: Switches)
    requires SwitchesRead(args, i, now, sw) && i < |args|
    ensures now[i] == args[i]
    ensures LooksLikeScore(args[i]) ==> i == ScoresStart(args, 2)
    ensures !LooksLikeScore(args[i]) ==>
      SwitchesRead(args, i + 1, now[i := Upper(args[i])], WithSwitch(sw, Upper(args[i])))
  {
    UpperedNext(args, i);
    SwitchesSnoc(now[2..i], Upper(args[i]));
  }

  /** parseSwitches (ds/commands.c:429-450): upper-cases what it looks at, in place. */
  method ParseSwitches(args: seq<string>) returns (args': seq<string>, sw: Switches)
    requires |args| >= 2
    ensures args' == Uppered(args, ScoresStart(args, 2))
    ensures sw == SwitchesIn(args'[2..ScoresStart(args, 2)])
  {
    args', sw := args, Switches(false, false, false, false);
    var i := 2;
    assert args == Uppered(args, 2) && args[2..2] == [];
    while i < |args|
      invariant SwitchesRead(args, i, args', sw)
    {
      ReadSwitch(args, i, args', sw);
      if LooksLikeScore(args'[i]) { return; }
      args' := args'[i := Upper(args'[i])];
      if args'[i] == "NX" {
        sw := sw.(nx := true);
      } else if args'[i] == "XX" {
        sw := sw.(xx := true);
      } else if args'[i] == "CH" {
        sw := sw.(ch := true);
      } else if args'[i] == "INCR" {
        sw := sw.(incr := true);
      }
      i := i + 1;
    }
    assert i == |args|;
  }

  /** The tests of addToSortedSet (ds/skiplist.c:38-66); args are as parseSwitches leaves them. */
  method Classify(sw: Switches, args: seq<string>) returns (request: Request)
    requires |args| >= 4
    ensures request == RequestWith(args, sw, sw.Count())
  {
    if sw.nx && sw.xx { return Invalid(XX_AND_NX_NOT_COMPATIBLE); }
    var switches := 0;
    if sw.nx || sw.xx { switches := switches + 1; }
    if sw.ch { switches := switches + 1; }
    if sw.incr { switches := switches + 1; }
    assert switches == sw.Count();
    if (|args| - switches) % 2 == 0 {
      Arity(|args|, switches);
      var rest := args[switches + 2..];
      if sw.incr {
        if |args| - switches == 4 {
          request := Increment(sw.nx, rest);
        } else {
          request := Invalid(INCR_OPTION_SUPPORTS_A_SINGLE_PAIR);
        }
      } else {
        request := Add(sw.xx, sw.nx, sw.ch, rest);
      }
    } else {
      request := Invalid(SYNTAX_ERROR);
    }
  }

  /** The calls of addToSortedSet (ds/skiplist.c:53-61). */
  method AddToSortedSet(list: SkipList, request: Request, heights: seq<nat>, rule: TieRule) returns (reply: Reply)
    requires list.Valid()
    requires request.Increment? ==> |request.pair| == 2 && |heights| > 0
    requires request.Add? ==> |request.pairs| % 2 == 0 && |request.pairs| / 2 <= |heights|
    requires forall i :: 0 <= i < |heights| ==> heights[i] < MAX_LEVEL
    requires RequestFits(request) && (rule.NextKey? || SafeRequest(list.entries, request))
    modifies list, list.nodes
    ensures list.Valid() && fresh(list.nodes - old(list.nodes))
    ensures (reply, list.entries) == Answer(old(list.entries), request)
  {
    match request {
      case Invalid(code) =>
        reply := Error(code);
      case Increment(nx, pair) =>
        reply := ScoreIncrement(list, pair, nx, heights[0], rule);
      case Add(xx, nx, ch, pairs) =>
        reply := AddOrUpdateMember(list, xx, nx, ch, pairs, heights, rule);
    }
  }

  lemma RequestSize(args: seq<string>, sw: Switches, n: nat)
    requires |args| >= 4 && n <= 3
    ensures var request := RequestWith(args, sw, n);
      request.Add? ==> |request.pairs| / 2 <= |args|
  {
  }

  /** The list part of zaddCommand (ds/commands.c:265-266): reply and set are what the
      specification says, whatever heights the new towers get. */
  method Zadd(list: SkipList, args: seq<string>, heights: seq<nat>, rule: TieRule) returns (reply: Reply)
    requires list.Valid() && |args| >= 4 && ZaddFits(args)
    requires |args| <= |heights| && forall i :: 0 <= i < |heights| ==> heights[i] < MAX_LEVEL
    requires rule.NextKey? || SafeRequest(list.entries, RequestOf(args))
    modifies list, list.nodes
    ensures list.Valid() && fresh(list.nodes - old(list.nodes))
    ensures (reply, list.entries) == ZaddReply(old(list.entries), args)
  {
    var args', sw := ParseSwitches(args);
    var request := Classify(sw, args');
    RequestSize(args', sw, sw.Count());
    reply := AddToSortedSet(list, request, heights, rule);
  }

  /** ZCOUNT on the list (ds/commands.c:309-311). */
  method Zcount(list: SkipList, left: real, right: real) returns (res: nat)
    requires list.Valid()
    ensures res == CountBetween(list.entries, left, right)
  {
    var mi := RankByScore(list, left, false);
    var ma := RankByScore(list, right, true);
    RanksCount(list.entries, left, right);
    res := if mi > ma then 0 else ma - mi;
  }

  /** The bottom node of a position leads to the next position's, and carries its entry. */
  lemma BottomNode(list: SkipList, p: nat)
    requires list.Valid() && 0 < p < |list.towers|
    ensures list.towers[p][0].key == list.entries[p - 1].member && list.towers[p][0].score == list.entries[p - 1].score
    ensures list.towers[p][0].next == if p + 1 < |list.towers| then list.towers[p + 1][0] else null
  {
    assert Stands(list.towers, list.entries, p, 0) && Linked(list.towers, p, 0);
    NextPosIs(list.towers, p, 0, p + 1);
  }

  lemma FirstNode(list: SkipList)
    requires list.Valid()
    ensures list.towers[0][0].next == if |list.entries| > 0 then list.towers[1][0] else null
  {
    assert Linked(list.towers, 0, 0);
    NextPosIs(list.towers, 0, 0, 1);
  }

  /** The bottom sentinel: the way down of writeSkiplistToFile (ds/commands.c:626-628). */
  method BottomSentinel(list: SkipList) returns (node: SkipNode)
    requires list.Valid()
    ensures node == list.towers[0][0]
  {
    node := list.head;
    ghost var i := list.levels;
    while node.down != null
      invariant 0 <= i <= list.levels && node == list.towers[0][i]
      decreases i
    {
      assert Linked(list.towers, 0, i);
      node := node.down;
      i := i - 1;
    }
    assert Linked(list.towers, 0, i);
  }

  /** What the loop of ZRANGE has after k entries, and the node it holds. */
  ghost predicate Collected(t: seq<seq<SkipNode>>, s: seq<Entry>, left: nat, k: nat, withScores: bool,
                            items: seq<string>, node: SkipNode?)
    requires |t| == |s| + 1 && forall p :: 0 <= p < |t| ==> |t[p]| > 0
  {
    && left + k <= |s| && items == Items(s[left..left + k], withScores)
    && node == if left + k < |s| then t[left + k + 1][0] else null
  }

  /** The loop of ds/commands.c:362-370: len entries from position left on. */
  method Collect(list: SkipList, from: SkipNode?, left: nat, len: nat, withScores: bool) returns (items: seq<string>)
    requires list.Valid() && (len > 0 ==> left + len <= |list.entries| && from == list.towers[left + 1][0])
    ensures items == if len > 0 then Items(list.entries[left..left + len], withScores) else []
  {
    items := [];
    if len == 0 { return; }
    var node, rest := from, len;
    ghost var k := 0;
    assert list.entries[left..left] == [];
    while node != null && rest > 0
      invariant k + rest == len
      invariant Collected(list.towers, list.entries, left, k, withScores, items, node)
      decreases rest
    {
      rest := rest - 1;
      items, node := TakeEntry(list, node, left, k, withScores, items);
      k := k + 1;
    }
    assert k == len;
  }

  method TakeEntry(list: SkipList, node: SkipNode, ghost left: nat, ghost k: nat, withScores: bool, before: seq<string>)
    returns (items: seq<string>, next: SkipNode?)
    requires list.Valid() && left + k < |list.entries|
    requires Collected(list.towers, list.entries, left, k, withScores, before, node)
    ensures Collected(list.towers, list.entries, left, k + 1, withScores, items, next)
  {
    BottomNode(list, left + k + 1);
    ItemsNext(list.entries, left, k, withScores);
    items := before + [node.key];
    if withScores { items := items + [DoubleToString(node.score)]; }
    next := node.next;
  }

  lemma ItemsNext(s: seq<Entry>, left: nat, k: nat, withScores: bool)
    requires left + k < |s|
    ensures Items(s[left..left + k + 1], withScores) ==
      Items(s[left..left + k], withScores) + ItemOf(s[left + k], withScores)
  {
    var a, b := s[left..left + k], s[left..left + k + 1];
    ItemsSnoc(a, s[left + k], withScores);
    assert b == a + [s[left + k]] by {
      assert |b| == |a| + 1 && b[k] == s[left + k];
      assert forall i :: 0 <= i < k ==> b[i] == s[left + i] == a[i];
    }
  }

  /** Clamping as ds/commands.c:350-354 does it, against the slice it stands for. */
  lemma SliceBounds(s: seq<Entry>, left0: int, right0: int, left: int, right: int, len: int)
    requires left == if left0 < 0 then Max(|s| + left0, 0) else left0
    requires right == Min(if right0 < 0 then Max(|s| + right0, -1) else right0, |s| - 1)
    requires len == Max(right - left + 1, 0)
    ensures 0 <= left && (len > 0 ==> left + len <= |s|)
    ensures Slice(s, left0, right0) == if len > 0 then s[left..left + len] else []
  {
  }

  /** ZRANGE on the list (ds/commands.c:350-370). */
  method Zrange(list: SkipList, left0: int, right0: int, withScores: bool) returns (items: seq<string>)
    requires list.Valid()
    ensures items == Items(Slice(list.entries, left0, right0), withScores)
  {
    var size := list.size;
    var left := if left0 < 0 then Max(size + left0, 0) else left0;
    var right := if right0 < 0 then Max(size + right0, -1) else right0;
    right := Min(right, size - 1);
    var len := Max(right - left + 1, 0);
    SliceBounds(list.entries, left0, right0, left, right, len);
    var node := null;
    if len > 0 { node := RankByOrder(list, left); }
    items := Collect(list, node, left, len, withScores);
  }
}
