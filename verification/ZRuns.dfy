/** Whole runs of sorted-set commands, and what one operation undoes of another. */
module ZRuns {
  import opened CStrings
  import opened SortedSet
  import opened SkipShape
  import opened TieBreak
  import opened SkipList
  import opened ZSpec
  import opened ZCommands

  datatype Command =
    | Zadd(args: seq<string>)
    | Zcount(left: real, right: real)
    | Zrange(start: int, stop: int, withScores: bool)
    | Zcard

  /** Enough arguments, and none the C code cannot read in full. */
  predicate WellArmed(cmd: Command) {
    cmd.Zadd? ==> |cmd.args| >= 4 && ZaddFits(cmd.args)
  }

  function Apply(s: seq<Entry>, cmd: Command): (Reply, seq<Entry>)
    requires WellArmed(cmd)
  {
    match cmd
    case Zadd(args) => ZaddReply(s, args)
    case Zcount(left, right) => (Integer(CountBetween(s, left, right)), s)
    case Zrange(start, stop, withScores) => (Array(Items(Slice(s, start, stop), withScores)), s)
    case Zcard => (Integer(|s|), s)
  }

  /** The replies to a sequence of commands, and the set they leave. */
  function ApplyAll(s: seq<Entry>, cmds: seq<Command>): (seq<Reply>, seq<Entry>)
    requires forall i :: 0 <= i < |cmds| ==> WellArmed(cmds[i])
  {
    if cmds == [] then ([], s)
    else
      var (replies, now) := ApplyAll(s, cmds[..|cmds| - 1]);
      var (reply, next) := Apply(now, cmds[|cmds| - 1]);
      (replies + [reply], next)
  }

  /** Every pair a command writes is safe: insertion's own tie-break puts it in its place at any
      heights. */
  ghost predicate SafeCommand(s: seq<Entry>, cmd: Command)
    requires WellArmed(cmd)
  {
    cmd.Zadd? ==> SafeRequest(s, RequestOf(cmd.args))
  }

  ghost predicate SafeTurn(s: seq<Entry>, cmds: seq<Command>, i: nat)
    requires i < |cmds| && forall j :: 0 <= j < |cmds| ==> WellArmed(cmds[j])
  {
    SafeCommand(ApplyAll(s, cmds[..i]).1, cmds[i])
  }

  /** So is every pair of a run, when its turn comes. */
  ghost predicate SafeRun(s: seq<Entry>, cmds: seq<Command>)
    requires forall i :: 0 <= i < |cmds| ==> WellArmed(cmds[i])
  {
    forall i {:trigger SafeTurn(s, cmds, i)} :: 0 <= i < |cmds| ==> SafeTurn(s, cmds, i)
  }

  /** A stream of tower heights, long enough for one command. */
  predicate HeightsFor(cmd: Command, heights: seq<nat>) {
    && (cmd.Zadd? ==> |cmd.args| <= |heights|)
    && (forall i :: 0 <= i < |heights| ==> heights[i] < MAX_LEVEL)
  }

  /** One command, with either tie-break of insertion; with its own, for pairs that are safe. */
  method Execute(list: SkipList, cmd: Command, heights: seq<nat>, rule: TieRule) returns (reply: Reply)
    requires list.Valid() && WellArmed(cmd) && HeightsFor(cmd, heights)
    requires rule.NextKey? || SafeCommand(list.entries, cmd)
    modifies list, list.nodes
    ensures list.Valid() && fresh(list.nodes - old(list.nodes))
    ensures (reply, list.entries) == Apply(old(list.entries), cmd)
  {
    match cmd {
      case Zadd(args) =>
        reply := ZCommands.Zadd(list, args, heights, rule);
      case Zcount(left, right) =>
        var n := ZCommands.Zcount(list, left, right);
        reply := Integer(n);
      case Zrange(start, stop, withScores) =>
        var items := ZCommands.Zrange(list, start, stop, withScores);
        reply := Array(items);
      case Zcard =>
        reply := Integer(list.size);
    }
  }

  /** Every run on nodes and random towers answers what the specification answers: with removal's
      tie-break in insertion always, with insertion's own when every pair written is safe. */
  method Run(list: SkipList, cmds: seq<Command>, heights: seq<seq<nat>>, rule: TieRule)
    returns (replies: seq<Reply>)
    requires list.Valid() && |cmds| == |heights|
    requires forall i :: 0 <= i < |cmds| ==> WellArmed(cmds[i]) && HeightsFor(cmds[i], heights[i])
    requires rule.NextKey? || SafeRun(list.entries, cmds)
    modifies list, list.nodes
    ensures list.Valid() && fresh(list.nodes - old(list.nodes))
    ensures (replies, list.entries) == ApplyAll(old(list.entries), cmds)
  {
    replies := [];
    var i := 0;
    ghost var s := list.entries;
    while i < |cmds|
      invariant 0 <= i <= |cmds| && list.Valid() && fresh(list.nodes - old(list.nodes))
      invariant (replies, list.entries) == ApplyAll(s, cmds[..i])
    {
      ghost var now := list.entries;
      assert rule.OwnKey? ==> SafeTurn(s, cmds, i);
      var reply := Execute(list, cmds[i], heights[i], rule);
      assert cmds[..i + 1][..i] == cmds[..i];
      replies := replies + [reply];
      i := i + 1;
    }
    assert cmds[..i] == cmds;
  }

  /** Replies do not depend on randomness: two sets with the same scores by member answer the same
      commands alike and end up alike, whatever the heights of their towers, old and new; as shipped,
      with insertion's own tie-break, when every pair written is safe. */
  method RunTwice(a: SkipList, b: SkipList, cmds: seq<Command>, heightsA: seq<seq<nat>>, heightsB: seq<seq<nat>>,
                  rule: TieRule)
    returns (repliesA: seq<Reply>, repliesB: seq<Reply>)
    requires a.Valid() && b.Valid() && ToMap(a.entries) == ToMap(b.entries)
    requires {a} + a.nodes !! {b} + b.nodes
    requires |cmds| == |heightsA| == |heightsB|
    requires forall i :: 0 <= i < |cmds| ==>
      WellArmed(cmds[i]) && HeightsFor(cmds[i], heightsA[i]) && HeightsFor(cmds[i], heightsB[i])
    requires rule.NextKey? || SafeRun(a.entries, cmds)
    modifies a, a.nodes, b, b.nodes
    ensures a.Valid() && b.Valid() && repliesA == repliesB
    ensures a.entries == b.entries && ToMap(a.entries) == ToMap(b.entries)
  {
    SortedUnique(a.entries, b.entries);
    repliesA := Run(a, cmds, heightsA, rule);
    repliesB := Run(b, cmds, heightsB, rule);
  }

  /** Links do not see a taller sentinel tower. */
  lemma LinkBelow(t: seq<seq<SkipNode>>, t': seq<seq<SkipNode>>, nodes: set<object>, p: nat, i: nat)
    requires Owned(t', nodes) && AllLinked(t', nodes)
    requires |t| > 0 && |t'| == |t| && t' == t[0 := t'[0]] && t[0] <= t'[0] && p < |t| && i < |t[p]|
    ensures t'[p][i] == t[p][i] && Linked(t, p, i)
  {
    assert t'[p][i] == t[p][i];
    assert Linked(t', p, i);
    NextPosAhead(t', t, p, i);
  }

  lemma RaisedSentinel(t: seq<seq<SkipNode>>, nodes: set<object>, levels: nat, i: nat)
    requires |t| > 0 && Owned(t, nodes) && AllLinked(t, nodes) && levels < i < |t[0]|
    requires forall p :: 0 < p < |t| ==> |t[p]| <= levels + 1
    ensures t[0][i].next == null && t[0][i].children == |t|
  {
    assert Linked(t, 0, i);
    NextPosIs(t, 0, i, |t|);
  }

  lemma TakenBack<T>(t: seq<seq<T>>, t': seq<seq<T>>, s: seq<Entry>, s': seq<Entry>, r: nat, height: nat, e: Entry)
    requires Grown(t, t', r, height) && |t| == |s| + 1 && s' == InsertAt(s, r, e)
    ensures var u := RemoveTower(t', r + 1); |u| > 0 && u == t[0 := u[0]] && t[0] <= u[0]
    ensures r < |s'| && s'[r] == e && RemoveAt(s', r) == s && |t'[r + 1]| == height
  {
    var u := RemoveTower(t', r + 1);
    assert u[0] == t'[0];
    assert RemoveAt(s', r) == s;
  }

  /** The top node found by the table is the one just inserted. */
  lemma JustInserted(list: SkipList, r: nat, e: Entry, top: SkipNode)
    requires list.Valid() && r < |list.entries| && list.entries[r] == e
    requires |list.towers[r + 1]| > 0 && top == list.towers[r + 1][|list.towers[r + 1]| - 1]
    ensures e.member in list.table && list.table[e.member] == top && top.score == e.score
    ensures IndexOf(list.entries, e.member) == r
  {
    CutOfPresent(list.entries, r);
    assert list.towers[r + 1][|list.towers[r + 1]| - 1] == top;
    assert Stands(list.towers, list.entries, r + 1, |list.towers[r + 1]| - 1);
  }

  /** Insert a new member, and see that its removal would take everything back. */
  method AddOnly(list: SkipList, key: string, score: real, raiseTo: nat, rule: TieRule) returns (top: SkipNode)
    requires list.Valid() && raiseTo < MAX_LEVEL && key !in list.table && Plain(key)
    requires rule.NextKey? || SafeAtAnyHeight(list.entries, Entry(score, key))
    modifies list, list.nodes
    ensures list.Valid() && fresh(list.nodes - old(list.nodes))
    ensures key in list.table && list.table[key] == top && top.score == score
    ensures var r := IndexOf(list.entries, key);
      && r < |list.entries| && RemoveAt(list.entries, r) == old(list.entries)
      && var u := RemoveTower(list.towers, r + 1);
      && |u| > 0 && u == old(list.towers)[0 := u[0]] && old(list.towers[0]) <= u[0]
  {
    ghost var t, s := list.towers, list.entries;
    var e := Entry(score, key);
    ghost var r;
    top, r := AddSafely(list, e, raiseTo, rule);
    TakenBack(t, list.towers, s, list.entries, r, raiseTo + 1, e);
    JustInserted(list, r, e, top);
  }

  /** Insert and remove the same new member; the list's own view of what that leaves. */
  method AddAndRemove(list: SkipList, key: string, score: real, raiseTo: nat, rule: TieRule)
    requires list.Valid() && raiseTo < MAX_LEVEL && key !in list.table && Plain(key)
    requires rule.NextKey? || SafeAtAnyHeight(list.entries, Entry(score, key))
    modifies list, list.nodes
    ensures list.Valid() && fresh(list.nodes - old(list.nodes)) && list.entries == old(list.entries)
    ensures list.towers == old(list.towers)[0 := list.towers[0]] && old(list.towers[0]) <= list.towers[0]
  {
    var top := AddOnly(list, key, score, raiseTo, rule);
    list.RemoveNode(key, score, top);
  }

  /** Inserting a new member and removing it again restores every node there was, link for link and
      span for span; a level that was raised for it holds only its sentinel, with span size + 1.  With
      either tie-break of insertion; with its own, for a pair that is safe. */
  method InsertThenRemove(list: SkipList, key: string, score: real, raiseTo: nat, rule: TieRule)
    requires list.Valid() && raiseTo < MAX_LEVEL && key !in list.table && Plain(key)
    requires rule.NextKey? || SafeAtAnyHeight(list.entries, Entry(score, key))
    modifies list, list.nodes
    ensures list.Valid() && list.entries == old(list.entries)
    ensures list.towers == old(list.towers)[0 := list.towers[0]] && old(list.towers[0]) <= list.towers[0]
    ensures forall p, i {:trigger old(list.towers)[p][i]} ::
      (0 <= p < |old(list.towers)| && 0 <= i < |old(list.towers)[p]|) ==>
      var n := old(list.towers)[p][i];
      n.next == old(n.next) && n.children == old(n.children) && n.down == old(n.down)
    ensures forall i :: |old(list.towers[0])| <= i < |list.towers[0]| ==>
      list.towers[0][i].next == null && list.towers[0][i].children == list.size + 1
  {
    ghost var t: seq<seq<SkipNode>>, levels := list.towers, list.levels;
    assert |t[0]| == levels + 1 && forall p :: 0 < p < |t| ==> |t[p]| <= levels + 1;
    AddAndRemove(list, key, score, raiseTo, rule);
    forall p, i | 0 <= p < |t| && 0 <= i < |t[p]|
      ensures t[p][i].next == old(t[p][i].next) && t[p][i].children == old(t[p][i].children) &&
        t[p][i].down == old(t[p][i].down)
    {
      LinkBelow(t, list.towers, list.nodes, p, i);
      assert old(Linked(t, p, i));
    }
    forall i | levels < i < |list.towers[0]|
      ensures list.towers[0][i].next == null && list.towers[0][i].children == list.size + 1
    {
      assert forall p :: 0 < p < |list.towers| ==> list.towers[p] == t[p];
      RaisedSentinel(list.towers, list.nodes, levels, i);
    }
  }
}
