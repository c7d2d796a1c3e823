/** What the sorted-set commands do to a sorted set and what they answer, with no node, level or
    random height in sight. */
module ZSpec {
  import opened CStrings
  import opened Decimal
  import opened SortedSet
  import opened TieBreak

  const VALUE_IS_NOT_A_VALID_FLOAT := -10
  const INCR_OPTION_SUPPORTS_A_SINGLE_PAIR := -8
  const SYNTAX_ERROR := -9
  const XX_AND_NX_NOT_COMPATIBLE := -11
  const WRONG_NUMBER_OF_ARGUMENTS := -2
  const WRONG_TYPE := -3

  datatype Reply =
    | Integer(n: nat)
    | Bulk(str: string)
    | Array(items: seq<string>)
    | Null
    | Ok
    | Error(code: int)

  // ----- one score and member of a ZADD -----

  /** Is the pair written at all, under XX, NX or neither? */
  predicate Writes(s: seq<Entry>, xx: bool, nx: bool, member: string) {
    var present := Has(s, member);
    if xx then present else if nx then !present else true
  }

  /** A pair that is written replaces the member's old one. */
  function Step(s: seq<Entry>, xx: bool, nx: bool, e: Entry): seq<Entry> {
    if Writes(s, xx, nx, e.member) then Insert(Remove(s, e.member), e) else s
  }

  /** A batch is applied pair by pair, from the left. */
  function Fold(s: seq<Entry>, xx: bool, nx: bool, batch: seq<Entry>): seq<Entry> {
    if batch == [] then s
    else Step(Fold(s, xx, nx, batch[..|batch| - 1]), xx, nx, batch[|batch| - 1])
  }

  /** 1 when a pair brings in an absent member, 1 when it is written over a present one. */
  function InsertsOne(s: seq<Entry>, xx: bool, nx: bool, member: string): nat {
    if Writes(s, xx, nx, member) && IndexOf(s, member) == |s| then 1 else 0
  }

  function ChangesOne(s: seq<Entry>, xx: bool, nx: bool, member: string): nat {
    if Writes(s, xx, nx, member) && IndexOf(s, member) < |s| then 1 else 0
  }

  /** How many pairs of the batch brought in a member that was absent. */
  function Inserts(s: seq<Entry>, xx: bool, nx: bool, batch: seq<Entry>): (n: nat)
    ensures n <= |batch|
  {
    if batch == [] then 0
    else
      var before, e := batch[..|batch| - 1], batch[|batch| - 1];
      var now := Fold(s, xx, nx, before);
      Inserts(s, xx, nx, before) + InsertsOne(now, xx, nx, e.member)
  }

  /** How many pairs of the batch were written over a member that was present. */
  function Changes(s: seq<Entry>, xx: bool, nx: bool, batch: seq<Entry>): (n: nat)
    ensures n <= |batch|
  {
    if batch == [] then 0
    else
      var before, e := batch[..|batch| - 1], batch[|batch| - 1];
      var now := Fold(s, xx, nx, before);
      Changes(s, xx, nx, before) + ChangesOne(now, xx, nx, e.member)
  }

  lemma RemovedAbsent(s: seq<Entry>, m: string)
    requires WellFormed(s)
    ensures WellFormed(Remove(s, m)) && !Has(Remove(s, m), m)
  {
    var r := IndexOf(s, m);
    if r < |s| {
      RemoveAtWellFormed(s, r);
      HasRemoveAt(s, r, m);
    }
  }

  lemma {:induction false} RemoveSpec(s: seq<Entry>, m: string)
    requires WellFormed(s)
    ensures WellFormed(Remove(s, m)) && !Has(Remove(s, m), m)
    ensures ToMap(Remove(s, m)) == ToMap(s) - {m}
    ensures |Remove(s, m)| == if IndexOf(s, m) < |s| then |s| - 1 else |s|
  {
    var r := IndexOf(s, m);
    if r < |s| {
      RemoveAtSpec(s, r);
    } else {
      assert ToMap(s) - {m} == ToMap(s);
    }
  }

  lemma InsertSpec(s: seq<Entry>, e: Entry)
    requires WellFormed(s) && !Has(s, e.member)
    ensures WellFormed(Insert(s, e)) && |Insert(s, e)| == |s| + 1
    ensures ToMap(Insert(s, e)) == ToMap(s)[e.member := e.score]
  {
    InsertAtSpec(s, Cut(s, e), e);
  }

  /** The map a pair leaves behind. */
  function MapStep(m: map<string, real>, xx: bool, nx: bool, e: Entry): map<string, real> {
    if (if xx then e.member in m else if nx then e.member !in m else true) then m[e.member := e.score] else m
  }

  lemma PutAfterDrop(m: map<string, real>, k: string, v: real)
    ensures (m - {k})[k := v] == m[k := v]
  {
  }

  lemma {:induction false} ReplaceSpec(s: seq<Entry>, e: Entry)
    requires WellFormed(s)
    ensures var s' := Insert(Remove(s, e.member), e);
      && WellFormed(s') && ToMap(s') == ToMap(s)[e.member := e.score]
      && |s'| == if IndexOf(s, e.member) < |s| then |s| else |s| + 1
  {
    RemoveSpec(s, e.member);
    var u := Remove(s, e.member);
    InsertSpec(u, e);
    PutAfterDrop(ToMap(s), e.member, e.score);
  }

  lemma StepRefinesMap(s: seq<Entry>, xx: bool, nx: bool, e: Entry)
    requires WellFormed(s)
    ensures WellFormed(Step(s, xx, nx, e))
    ensures ToMap(Step(s, xx, nx, e)) == MapStep(ToMap(s), xx, nx, e)
    ensures |Step(s, xx, nx, e)| == |s| + InsertsOne(s, xx, nx, e.member)
  {
    assert Has(s, e.member) <==> e.member in ToMap(s);
    if Writes(s, xx, nx, e.member) { ReplaceSpec(s, e); }
  }

  /** A batch keeps the set sorted with one entry per member, and the set grows by exactly the
      number of inserts. */
  lemma {:induction false} FoldSpec(s: seq<Entry>, xx: bool, nx: bool, batch: seq<Entry>)
    requires WellFormed(s)
    ensures WellFormed(Fold(s, xx, nx, batch))
    ensures |Fold(s, xx, nx, batch)| == |s| + Inserts(s, xx, nx, batch)
    ensures xx ==> Inserts(s, xx, nx, batch) == 0
    ensures nx && !xx ==> Changes(s, xx, nx, batch) == 0
    ensures !xx && !nx ==> Inserts(s, xx, nx, batch) + Changes(s, xx, nx, batch) == |batch|
  {
    if batch != [] {
      FoldSpec(s, xx, nx, batch[..|batch| - 1]);
      StepRefinesMap(Fold(s, xx, nx, batch[..|batch| - 1]), xx, nx, batch[|batch| - 1]);
    }
  }

  /** The first, or the last, score the batch gives a member. */
  function FirstScore(batch: seq<Entry>, m: string): Option<real> {
    if batch == [] then None
    else if batch[0].member == m then Some(batch[0].score)
    else FirstScore(batch[1..], m)
  }

  function LastScore(batch: seq<Entry>, m: string): Option<real> {
    if batch == [] then None
    else if batch[|batch| - 1].member == m then Some(batch[|batch| - 1].score)
    else LastScore(batch[..|batch| - 1], m)
  }

  function Lookup(m: map<string, real>, k: string): Option<real> {
    if k in m then Some(m[k]) else None
  }

  lemma {:induction false} FirstScoreSnoc(batch: seq<Entry>, m: string)
    requires batch != []
    ensures var before, e := batch[..|batch| - 1], batch[|batch| - 1];
      FirstScore(batch, m) ==
        if FirstScore(before, m).Some? then FirstScore(before, m)
        else if e.member == m then Some(e.score) else None
  {
    var before := batch[..|batch| - 1];
    if |batch| > 1 {
      assert before[0] == batch[0];
      FirstScoreSnoc(batch[1..], m);
      assert batch[1..][..|batch| - 2] == before[1..];
    } else {
      assert before == [] && batch[1..] == [];
    }
  }

  /** Which score a member ends with: XX updates present members to the batch's last score, NX
      keeps present members and takes the batch's first score for absent ones, and with neither
      the batch's last score wins. */
  lemma {:induction false} FoldMeaning(s: seq<Entry>, xx: bool, nx: bool, batch: seq<Entry>, k: string)
    requires WellFormed(s)
    ensures WellFormed(Fold(s, xx, nx, batch))
    ensures Lookup(ToMap(Fold(s, xx, nx, batch)), k) ==
      var prior := Lookup(ToMap(s), k);
      if xx then (if prior.Some? && LastScore(batch, k).Some? then LastScore(batch, k) else prior)
      else if nx then (if prior.Some? then prior else FirstScore(batch, k))
      else if LastScore(batch, k).Some? then LastScore(batch, k) else prior
  {
    if batch != [] {
      var before, e := batch[..|batch| - 1], batch[|batch| - 1];
      FoldMeaning(s, xx, nx, before, k);
      var now := Fold(s, xx, nx, before);
      StepRefinesMap(now, xx, nx, e);
      FirstScoreSnoc(batch, k);
    }
  }

  // ----- counts and slices -----

  /** The number of entries whose score lies between the bounds, both included. */
  function CountBetween(s: seq<Entry>, left: real, right: real): (n: nat)
    ensures n <= |s|
  {
    if s == [] then 0
    else (if left <= s[0].score <= right then 1 else 0) + CountBetween(s[1..], left, right)
  }

  /** Two ranks give the count, for bounds in either order. */
  lemma {:induction false} RanksCount(s: seq<Entry>, left: real, right: real)
    ensures var mi, ma := CountBelow(s, left, false), CountBelow(s, right, true);
      && CountBetween(s, left, right) == (if mi > ma then 0 else ma - mi)
      && (left <= right ==> mi <= ma) && (right < left ==> ma <= mi)
  {
    if s != [] { RanksCount(s[1..], left, right); }
  }

  function Max(a: int, b: int): int { if a > b then a else b }
  function Min(a: int, b: int): int { if a < b then a else b }

  /** The slice from left to right, both included, where a negative index counts from the end and
      what lies outside the set is cut off. */
  function Slice(s: seq<Entry>, left: int, right: int): (r: seq<Entry>) {
    var l := if left < 0 then Max(|s| + left, 0) else left;
    var r := if right < 0 then |s| + right else Min(right, |s| - 1);
    if l <= r then s[l..r + 1] else []
  }

  /** What one entry adds to the answer. */
  function ItemOf(e: Entry, withScores: bool): seq<string> {
    [e.member] + if withScores then [DoubleToString(e.score)] else []
  }

  function Items(s: seq<Entry>, withScores: bool): seq<string> {
    if s == [] then [] else Items(s[..|s| - 1], withScores) + ItemOf(s[|s| - 1], withScores)
  }

  lemma {:induction false} ItemsSnoc(s: seq<Entry>, e: Entry, withScores: bool)
    ensures Items(s + [e], withScores) == Items(s, withScores) + ItemOf(e, withScores)
  {
    assert (s + [e])[..|s|] == s;
  }

  lemma {:induction false} ItemsSize(s: seq<Entry>, withScores: bool)
    ensures |Items(s, withScores)| == if withScores then 2 * |s| else |s|
  {
    if s != [] { ItemsSize(s[..|s| - 1], withScores); }
  }

  /** The members in order, each with its printed score behind it if that was asked for. */
  lemma {:induction false} ItemsAt(s: seq<Entry>, withScores: bool, i: nat)
    requires i < |s|
    ensures |Items(s, withScores)| == if withScores then 2 * |s| else |s|
    ensures !withScores ==> Items(s, withScores)[i] == s[i].member
    ensures withScores ==>
      Items(s, withScores)[2 * i] == s[i].member && Items(s, withScores)[2 * i + 1] == DoubleToString(s[i].score)
  {
    hide DoubleToString;
    var front := s[..|s| - 1];
    ItemsSize(s, withScores);
    ItemsSize(front, withScores);
    assert Items(s, withScores) == Items(front, withScores) + ItemOf(s[|s| - 1], withScores);
    if i < |front| {
      ItemsAt(front, withScores, i);
      assert front[i] == s[i];
    } else {
      assert i == |front|;
    }
  }

  /** The positions from one on whose scores lie between the bounds. */
  function Within(s: seq<Entry>, left: real, right: real, from: nat): set<nat> {
    set i: nat | from <= i < |s| && left <= s[i].score <= right
  }

  lemma {:induction false} CountedFrom(s: seq<Entry>, left: real, right: real, from: nat)
    requires from <= |s|
    ensures |Within(s, left, right, from)| == CountBetween(s[from..], left, right)
    decreases |s| - from
  {
    var all := Within(s, left, right, from);
    if from == |s| {
      assert all == {};
    } else {
      CountedFrom(s, left, right, from + 1);
      var rest := Within(s, left, right, from + 1);
      assert s[from..][1..] == s[from + 1..];
      assert all == if left <= s[from].score <= right then {from} + rest else rest;
    }
  }

  /** Rank and select agree: the score at pos is passed by exactly the positions its ranks span,
      and with distinct scores its rank is pos. */
  lemma {:induction false} RankOfSelected(s: seq<Entry>, pos: nat)
    requires Sorted(s) && pos < |s|
    ensures CountBelow(s, s[pos].score, false) <= pos < CountBelow(s, s[pos].score, true)
    ensures (forall i :: 0 <= i < |s| && i != pos ==> s[i].score != s[pos].score) ==>
      CountBelow(s, s[pos].score, false) == pos && CountBelow(s, s[pos].score, true) == pos + 1
  {
    var lo, hi := CountBelow(s, s[pos].score, false), CountBelow(s, s[pos].score, true);
    if forall i :: 0 <= i < |s| && i != pos ==> s[i].score != s[pos].score {
      assert lo < |s| && s[lo].score == s[pos].score;
      assert pos + 1 < |s| ==> s[pos + 1].score != s[pos].score;
    }
  }

  // ----- argument text -----

  /** The first k scores and members of ZADD under a score parser, or None when it refuses one of
      these scores. */
  function PairsUpTo(parse: string -> Option<real>, args: seq<string>, k: nat): (r: Option<seq<Entry>>)
    requires 2 * k <= |args|
    ensures r.Some? ==> |r.value| == k
  {
    if k == 0 then Some([])
    else
      match (PairsUpTo(parse, args, k - 1), parse(args[2 * k - 2]))
      case (Some(pairs), Some(score)) => Some(pairs + [Entry(score, args[2 * k - 1])])
      case _ => None
  }

  function PairsOf(args: seq<string>): Option<seq<Entry>> {
    PairsUpTo(ScoreOf, args, |args| / 2)
  }

  predicate GoodScore(parse: string -> Option<real>, args: seq<string>, i: nat)
    requires 2 * i < |args|
  {
    parse(args[2 * i]).Some?
  }

  /** One bad score anywhere spoils the batch, whatever comes before or after it. */
  lemma {:induction false} PairsValid(parse: string -> Option<real>, args: seq<string>, k: nat)
    requires 2 * k <= |args|
    ensures PairsUpTo(parse, args, k).Some? <==> forall i :: 0 <= i < k ==> GoodScore(parse, args, i)
  {
    if k != 0 {
      var j := k - 1;
      PairsValid(parse, args, j);
      assert 2 * j == 2 * k - 2;
      assert PairsUpTo(parse, args, k).Some? <==> PairsUpTo(parse, args, j).Some? && GoodScore(parse, args, j);
      assert (forall i :: 0 <= i < k ==> GoodScore(parse, args, i)) <==>
             (forall i :: 0 <= i < j ==> GoodScore(parse, args, i)) && GoodScore(parse, args, j);
    }
  }

  /** The batch is the pairs in the order given. */
  lemma {:induction false} PairsInOrder(parse: string -> Option<real>, args: seq<string>, k: nat, i: nat)
    requires i < k && 2 * k <= |args| && PairsUpTo(parse, args, k).Some?
    ensures var e := PairsUpTo(parse, args, k).value[i];
      parse(args[2 * i]) == Some(e.score) && args[2 * i + 1] == e.member
  {
    var j := k - 1;
    if i != j { PairsInOrder(parse, args, j, i); }
    assert 2 * j == 2 * k - 2;
  }

  // ----- what the C code can read -----

  predicate PlainAt(args: seq<string>, i: nat)
    requires i < |args|
  {
    Plain(args[i])
  }

  /** Arguments without NUL bytes, from one on: `strcmp` and the number parsers see all of them. */
  predicate PlainFrom(args: seq<string>, from: nat) {
    forall i {:trigger PlainAt(args, i)} :: from <= i < |args| ==> PlainAt(args, i)
  }

  /** The k-th score, if it is come to, is read without overflow. */
  predicate PairFits(args: seq<string>, k: nat)
    requires 2 * k < |args|
  {
    PairsUpTo(ScoreOf, args, k).Some? ==> ScoreFits(args[2 * k])
  }

  predicate PairsFit(args: seq<string>) {
    PlainFrom(args, 0) && forall k {:trigger PairFits(args, k)} :: 0 <= k < |args| / 2 ==> PairFits(args, k)
  }

  predicate RequestFits(request: Request)
    requires request.Increment? ==> |request.pair| == 2
  {
    match request
    case Invalid(_) => true
    case Increment(_, pair) => Plain(pair[1]) && ScoreFits(pair[0])
    case Add(_, _, _, pairs) => PairsFit(pairs)
  }

  /** A ZADD whose switches, scores and members the C code reads in full and without overflow. */
  predicate ZaddFits(args: seq<string>)
    requires |args| >= 4
  {
    PlainFrom(args, 2) && RequestFits(RequestOf(args))
  }

  /** The members of a batch without NUL bytes have none. */
  lemma PairsPlain(args: seq<string>)
    requires |args| % 2 == 0 && PairsFit(args) && PairsOf(args).Some?
    ensures PlainMembers(PairsOf(args).value)
  {
    var batch, n := PairsOf(args).value, |args| / 2;
    assert |args| == 2 * n;
    forall i | 0 <= i < |batch|
      ensures Plain(batch[i].member)
    {
      PairsInOrder(ScoreOf, args, n, i);
      assert PlainAt(args, 2 * i + 1);
    }
  }

  // ----- the whole ZADD -----

  /** addOrUpdateMember: the reply counts the inserts, or under CH the changes only. */
  function AddReply(s: seq<Entry>, xx: bool, nx: bool, ch: bool, args: seq<string>): (Reply, seq<Entry>) {
    match PairsOf(args)
    case None => (Error(VALUE_IS_NOT_A_VALID_FLOAT), s)
    case Some(batch) =>
      (Integer(if ch then Changes(s, xx, nx, batch) else Inserts(s, xx, nx, batch)), Fold(s, xx, nx, batch))
  }

  function ScoreAt(s: seq<Entry>, m: string): real {
    var r := IndexOf(s, m);
    if r < |s| then s[r].score else 0.0
  }

  /** An increment: NX leaves a present member alone. */
  function IncrBy(s: seq<Entry>, nx: bool, m: string, score: real): (Reply, seq<Entry>) {
    if nx && Has(s, m) then (Null, s)
    else
      var res := ScoreAt(s, m) + score;
      (Bulk(DoubleToString(res)), Insert(Remove(s, m), Entry(res, m)))
  }

  /** scoreIncrement: XX is not looked at. */
  function IncrReply(s: seq<Entry>, nx: bool, args: seq<string>): (Reply, seq<Entry>)
    requires |args| == 2
  {
    match ScoreOf(args[0])
    case None => (Error(VALUE_IS_NOT_A_VALID_FLOAT), s)
    case Some(score) => IncrBy(s, nx, args[1], score)
  }

  /** Where parseSwitches stops: at the first argument from the third on that looks like a score. */
  function ScoresStart(args: seq<string>, from: nat): (k: nat)
    requires from <= |args|
    ensures from <= k <= |args|
    decreases |args| - from
  {
    if from == |args| || LooksLikeScore(args[from]) then from else ScoresStart(args, from + 1)
  }

  predicate LooksLikeScore(s: string) {
    s != [] && (IsDigit(s[0]) || s[0] == '.' || s[0] == '-')
  }

  /** The arguments as parseSwitches leaves them: all it looked at are now in upper case. */
  function Uppered(args: seq<string>, to: nat): (r: seq<string>)
    requires 2 <= to <= |args|
    ensures |r| == |args|
    ensures forall i :: 0 <= i < |args| ==> r[i] == if 2 <= i < to then Upper(args[i]) else args[i]
  {
    seq(|args|, i requires 0 <= i < |args| => if 2 <= i < to then Upper(args[i]) else args[i])
  }

  datatype Switches = Switches(xx: bool, nx: bool, ch: bool, incr: bool) {
    /** XX and NX count as one. */
    function Count(): (n: nat)
      ensures n <= 3
    {
      (if nx || xx then 1 else 0) + (if ch then 1 else 0) + (if incr then 1 else 0)
    }
  }

  function SwitchesIn(args: seq<string>): Switches {
    Switches("XX" in args, "NX" in args, "CH" in args, "INCR" in args)
  }

  lemma Arity(size: nat, n: nat)
    requires size >= 4 && n <= 3 && (size - n) % 2 == 0
    ensures 2 + n <= size && (size - n - 2) % 2 == 0
  {
  }

  /** What the arguments of a ZADD ask for, before any score is read. */
  datatype Request =
    | Invalid(code: int)
    | Increment(nx: bool, pair: seq<string>)
    | Add(xx: bool, nx: bool, ch: bool, pairs: seq<string>)

  /** addToSortedSet up to the point where it reads scores.  args holds the command, the key, the
      switches and the pairs; n is the number of switches. */
  function RequestWith(args: seq<string>, sw: Switches, n: nat): (r: Request)
    requires |args| >= 4 && n <= 3
    ensures r.Increment? ==> |r.pair| == 2
    ensures r.Add? ==> |r.pairs| % 2 == 0
  {
    if sw.nx && sw.xx then Invalid(XX_AND_NX_NOT_COMPATIBLE)
    else if (|args| - n) % 2 != 0 then Invalid(SYNTAX_ERROR)
    else
      Arity(|args|, n);
      if !sw.incr then Add(sw.xx, sw.nx, sw.ch, args[2 + n..])
      else if |args| - n == 4 then Increment(sw.nx, args[2 + n..])
      else Invalid(INCR_OPTION_SUPPORTS_A_SINGLE_PAIR)
  }

  /** The switches in front of the scores. */
  function SwitchesOf(args: seq<string>): Switches
    requires |args| >= 2
  {
    var k := ScoresStart(args, 2);
    SwitchesIn(Uppered(args, k)[2..k])
  }

  function RequestOf(args: seq<string>): (r: Request)
    requires |args| >= 4
    ensures r.Increment? ==> |r.pair| == 2
    ensures r.Add? ==> |r.pairs| % 2 == 0
  {
    var sw := SwitchesOf(args);
    RequestWith(Uppered(args, ScoresStart(args, 2)), sw, sw.Count())
  }

  lemma TailFrom(args: seq<string>, upper: seq<string>, k: nat, n: nat)
    requires |upper| == |args| && k <= |args| && 2 + n <= |args| && upper[k..] == args[k..]
    ensures upper[2 + n..] == args[k..] <==> 2 + n == k
  {
    if 2 + n != k { assert |upper[2 + n..]| != |args[k..]|; }
  }

  lemma SameParity(size: nat, n: nat)
    ensures (size - n) % 2 == (size - (n + 2)) % 2
  {
  }

  /** Requests whose pairs start where n known switches end. */
  lemma PairsAfter(args: seq<string>, upper: seq<string>, sw: Switches, k: nat, n: nat)
    requires |upper| == |args| >= 4 && 2 <= k <= |args| && upper[k..] == args[k..] && n == sw.Count()
    ensures RequestWith(upper, sw, n) == Add(sw.xx, sw.nx, sw.ch, args[k..]) <==>
      !(sw.nx && sw.xx) && !sw.incr && (|args| - k) % 2 == 0 && n == k - 2
    ensures RequestWith(upper, sw, n) == Increment(sw.nx, args[k..]) <==>
      !(sw.nx && sw.xx) && sw.incr && |args| - k == 2 && n == k - 2
  {
    if 2 + n <= |args| { TailFrom(args, upper, k, n); }
    SameParity(|args|, n);
  }

  lemma UpperedTail(args: seq<string>, k: nat)
    requires 2 <= k <= |args|
    ensures Uppered(args, k)[k..] == args[k..]
  {
  }

  /** When the scores and members are all there is from the first argument that looks like a score:
      if and only if every switch in front of it is known and given once, XX and NX not both, none
      of them is INCR, and what follows is even.  The same for an increment, which takes one pair;
      XX makes no difference to it. */
  lemma {:induction false} RequestExact(args: seq<string>, k: nat, sw: Switches)
    requires |args| >= 4 && k == ScoresStart(args, 2) && sw == SwitchesOf(args)
    ensures RequestOf(args) == Add(sw.xx, sw.nx, sw.ch, args[k..]) <==>
      !(sw.nx && sw.xx) && !sw.incr && (|args| - k) % 2 == 0 && sw.Count() == k - 2
    ensures RequestOf(args) == Increment(sw.nx, args[k..]) <==>
      !(sw.nx && sw.xx) && sw.incr && |args| - k == 2 && sw.Count() == k - 2
  {
    UpperedTail(args, k);
    PairsAfter(args, Uppered(args, k), sw, k, sw.Count());
  }

  function Answer(s: seq<Entry>, request: Request): (Reply, seq<Entry>)
    requires request.Increment? ==> |request.pair| == 2
  {
    match request
    case Invalid(code) => (Error(code), s)
    case Increment(nx, pair) => IncrReply(s, nx, pair)
    case Add(xx, nx, ch, pairs) => AddReply(s, xx, nx, ch, pairs)
  }

  // ----- what insertion's own tie-break needs -----

  /** No other member has the new score. */
  ghost predicate NoTie(s: seq<Entry>, e: Entry) {
    forall i {:trigger s[i]} :: 0 <= i < |s| && s[i].score == e.score ==> s[i].member == e.member
  }

  /** The pair can be written, in place of the member's old one, at any heights: insertion's own
      tie-break finds its sorted place. */
  ghost predicate SafeToWrite(s: seq<Entry>, e: Entry) {
    SafeAtAnyHeight(Remove(s, e.member), e)
  }

  /** Pair i of the batch can, when its turn comes, if it is written at all. */
  ghost predicate SafePair(s: seq<Entry>, xx: bool, nx: bool, batch: seq<Entry>, i: nat)
    requires i < |batch|
  {
    var now := Fold(s, xx, nx, batch[..i]);
    Writes(now, xx, nx, batch[i].member) ==> SafeToWrite(now, batch[i])
  }

  ghost predicate SafeBatch(s: seq<Entry>, xx: bool, nx: bool, batch: seq<Entry>) {
    forall i {:trigger SafePair(s, xx, nx, batch, i)} :: 0 <= i < |batch| ==> SafePair(s, xx, nx, batch, i)
  }

  /** An increment writes a pair that is safe, or none. */
  ghost predicate SafeBump(s: seq<Entry>, nx: bool, m: string, score: real) {
    (nx && Has(s, m)) || SafeToWrite(s, Entry(ScoreAt(s, m) + score, m))
  }

  /** What a request needs of the tie-break when it is insertion's own. */
  ghost predicate SafeRequest(s: seq<Entry>, request: Request)
    requires request.Increment? ==> |request.pair| == 2
    requires request.Add? ==> |request.pairs| % 2 == 0
  {
    match request
    case Invalid(_) => true
    case Increment(nx, pair) =>
      ScoreOf(pair[0]).Some? ==> SafeBump(s, nx, pair[1], ScoreOf(pair[0]).value)
    case Add(xx, nx, ch, pairs) => PairsOf(pairs).Some? ==> SafeBatch(s, xx, nx, PairsOf(pairs).value)
  }

  /** ZADD on the set s: the reply and the new set. */
  function ZaddReply(s: seq<Entry>, args: seq<string>): (Reply, seq<Entry>)
    requires |args| >= 4
  {
    Answer(s, RequestOf(args))
  }

  // ----- requests of one pair -----

  lemma LoneRequest(args: seq<string>)
    requires |args| == 4 && LooksLikeScore(args[2])
    ensures RequestOf(args) == Add(false, false, false, args[2..])
  {
    assert ScoresStart(args, 2) == 2;
    assert Uppered(args, 2) == args;
    assert SwitchesIn(args[2..2]) == Switches(false, false, false, false);
  }

  lemma LonePair(pair: seq<string>)
    requires |pair| == 2 && ScoreOf(pair[0]).Some?
    ensures PairsOf(pair) == Some([Entry(ScoreOf(pair[0]).value, pair[1])])
  {
    assert |pair| / 2 == 1;
    assert PairsUpTo(ScoreOf, pair, 0) == Some([]);
    var e := Entry(ScoreOf(pair[0]).value, pair[1]);
    assert PairsUpTo(ScoreOf, pair, 1) == Some([] + [e]);
    assert [] + [e] == [e];
  }

  lemma {:induction false} LoneFold(s: seq<Entry>, xx: bool, nx: bool, e: Entry)
    ensures Fold(s, xx, nx, [e]) == Step(s, xx, nx, e)
    ensures Inserts(s, xx, nx, [e]) == InsertsOne(s, xx, nx, e.member)
    ensures Changes(s, xx, nx, [e]) == ChangesOne(s, xx, nx, e.member)
  {
    var none: seq<Entry> := [];
    assert [e][..0] == none;
    assert Fold(s, xx, nx, none) == s && Inserts(s, xx, nx, none) == 0 && Changes(s, xx, nx, none) == 0;
  }

  lemma OneSwitch(key: string, x: string, t: string, m: string)
    requires !LooksLikeScore(x) && LooksLikeScore(t)
    ensures var args := ["ZADD", key, x, t, m]; ScoresStart(args, 2) == 3 && SwitchesOf(args) == SwitchesIn([Upper(x)])
  {
    var args := ["ZADD", key, x, t, m];
    assert ScoresStart(args, 3) == 3;
    assert Uppered(args, 3)[2..3] == [Upper(x)];
  }

  lemma TwoSwitches(key: string, x: string, y: string, t: string, m: string)
    requires !LooksLikeScore(x) && !LooksLikeScore(y) && LooksLikeScore(t) && Upper(x) == x && Upper(y) == y
    ensures var args := ["ZADD", key, x, y, t, m];
      ScoresStart(args, 2) == 4 && SwitchesOf(args) == SwitchesIn([x, y])
  {
    var args := ["ZADD", key, x, y, t, m];
    assert ScoresStart(args, 4) == 4 && ScoresStart(args, 3) == 4;
    assert Uppered(args, 4)[2..4] == [x, y];
  }

  /** Numbers with or without a point and a minus sign look like scores; names and plus signs do not. */
  lemma ScoresLook(a: string, c: string, t: string)
    requires AllDigits(a)
    ensures LooksLikeScore(a + "." + c) && (a != [] ==> LooksLikeScore(a)) && LooksLikeScore("-" + t)
    ensures t != [] && ('A' <= t[0] <= 'Z' || 'a' <= t[0] <= 'z' || t[0] == '+') ==> !LooksLikeScore(t)
  {
    var s := a + "." + c;
    assert s[0] == if a == [] then '.' else a[0];
    assert a != [] ==> IsDigit(a[0]);
  }

  /** INF does not look like a score: it is taken for a switch, and so is the member behind it, which
      is added in upper case. */
  lemma InfUppersMember(s: seq<Entry>, key: string, m: string)
    requires !LooksLikeScore(m) && Upper(m) !in {"XX", "NX", "CH", "INCR"}
    ensures ZaddReply(s, ["ZADD", key, "INF", m]).1 == Insert(Remove(s, Upper(m)), Entry(LDBL_MAX, Upper(m)))
  {
    var args := ["ZADD", key, "INF", m];
    assert ScoresStart(args, 4) == 4 && ScoresStart(args, 3) == 4 && ScoresStart(args, 2) == 4;
    assert Upper("INF") == "INF";
    assert Uppered(args, 4) == ["ZADD", key, "INF", Upper(m)];
    assert Uppered(args, 4)[2..4] == ["INF", Upper(m)];
    assert RequestOf(args) == Add(false, false, false, ["INF", Upper(m)]);
    LonePair(["INF", Upper(m)]);
    LoneFold(s, false, false, Entry(LDBL_MAX, Upper(m)));
  }

  /** A switch given twice is counted once, so the number of arguments comes out odd. */
  lemma RepeatedSwitch(key: string, t: string, m: string)
    requires LooksLikeScore(t)
    ensures RequestOf(["ZADD", key, "CH", "CH", t, m]) == Invalid(SYNTAX_ERROR)
  {
    assert Upper("CH") == "CH";
    TwoSwitches(key, "CH", "CH", t, m);
  }

  /** ZADD XX INCR brings in a member that is not there. */
  lemma IncrIgnoresXX(s: seq<Entry>, key: string, t: string, m: string)
    requires LooksLikeScore(t) && ScoreOf(t).Some? && !Has(s, m)
    ensures ZaddReply(s, ["ZADD", key, "XX", "INCR", t, m]).1 == Insert(s, Entry(ScoreOf(t).value, m))
  {
    assert Upper("XX") == "XX" && Upper("INCR") == "INCR";
    TwoSwitches(key, "XX", "INCR", t, m);
    var args := ["ZADD", key, "XX", "INCR", t, m];
    RequestExact(args, 4, Switches(true, false, false, true));
    assert args[4..] == [t, m];
    assert Remove(s, m) == s;
  }

  /** ZADD CH answers 0 for a member it brings in. */
  lemma ChCountsChangesOnly(s: seq<Entry>, key: string, t: string, m: string)
    requires LooksLikeScore(t) && ScoreOf(t).Some?
    ensures ZaddReply(s, ["ZADD", key, "CH", t, m]) ==
      (Integer(if Has(s, m) then 1 else 0), Insert(Remove(s, m), Entry(ScoreOf(t).value, m)))
  {
    assert Upper("CH") == "CH";
    OneSwitch(key, "CH", t, m);
    var args := ["ZADD", key, "CH", t, m];
    RequestExact(args, 3, Switches(false, false, true, false));
    assert args[3..] == [t, m];
    LonePair(args[3..]);
    LoneFold(s, false, false, Entry(ScoreOf(t).value, m));
  }

  /** Without CH a ZADD answers how much the set has grown. */
  lemma ReplyIsGrowth(s: seq<Entry>, args: seq<string>)
    requires WellFormed(s) && |args| >= 4
    requires RequestOf(args).Add? && !RequestOf(args).ch && !ZaddReply(s, args).0.Error?
    ensures var (reply, s') := ZaddReply(s, args);
      |s| <= |s'| && reply == Integer(|s'| - |s|)
  {
    hide RequestOf, Fold, Inserts, Changes, WellFormed;
    var r := RequestOf(args);
    FoldSpec(s, r.xx, r.nx, PairsOf(r.pairs).value);
  }

  lemma {:induction false} KeepsMembers(s: seq<Entry>, nx: bool, batch: seq<Entry>, m: string)
    requires WellFormed(s)
    ensures WellFormed(Fold(s, true, nx, batch)) && (Has(Fold(s, true, nx, batch), m) <==> Has(s, m))
  {
    FoldMeaning(s, true, nx, batch, m);
    var s' := Fold(s, true, nx, batch);
    assert Has(s', m) <==> m in ToMap(s');
    assert Has(s, m) <==> m in ToMap(s);
  }

  /** The pairs of a batch whose members are in the set. */
  function Known(s: seq<Entry>, batch: seq<Entry>): set<nat> {
    set i: nat | i < |batch| && Has(s, batch[i].member)
  }

  lemma KnownSnoc(s: seq<Entry>, batch: seq<Entry>)
    requires batch != []
    ensures var n := |batch| - 1;
      |Known(s, batch)| == |Known(s, batch[..n])| + if Has(s, batch[n].member) then 1 else 0
  {
    hide IndexOf;
    var n := |batch| - 1;
    var before := Known(s, batch[..n]);
    assert Known(s, batch) == before + (if Has(s, batch[n].member) then {n} else {});
    assert n !in before;
  }

  lemma {:induction false} ChangesAreKnown(s: seq<Entry>, nx: bool, batch: seq<Entry>)
    requires WellFormed(s)
    ensures Changes(s, true, nx, batch) == |Known(s, batch)|
  {
    if batch == [] {
      assert Known(s, batch) == {};
    } else {
      hide Fold, WellFormed, IndexOf, Known;
      var n := |batch| - 1;
      ChangesAreKnown(s, nx, batch[..n]);
      KeepsMembers(s, nx, batch[..n], batch[n].member);
      KnownSnoc(s, batch);
    }
  }

  /** With CH it answers the number of its pairs less that growth; under NX 0, and under XX the number
      of its pairs whose members the set has. */
  lemma ReplyIsChanges(s: seq<Entry>, args: seq<string>, batch: seq<Entry>)
    requires WellFormed(s) && |args| >= 4 && RequestOf(args).Add? && RequestOf(args).ch
    requires PairsOf(RequestOf(args).pairs) == Some(batch)
    ensures var (reply, s') := ZaddReply(s, args);
      var r := RequestOf(args);
      && |s| <= |s'| <= |s| + |batch|
      && (r.xx ==> reply == Integer(|Known(s, batch)|))
      && (r.nx && !r.xx ==> reply == Integer(0))
      && (!r.nx && !r.xx ==> reply == Integer(|batch| - (|s'| - |s|)))
  {
    hide PairsOf, RequestOf, Fold, Inserts, Changes, Known, WellFormed;
    var r := RequestOf(args);
    FoldSpec(s, r.xx, r.nx, batch);
    if r.xx { ChangesAreKnown(s, r.nx, batch); }
  }

  lemma ScoreOnMap(s: seq<Entry>, m: string)
    requires Distinct(s)
    ensures ScoreAt(s, m) == if m in ToMap(s) then ToMap(s)[m] else 0.0
  {
    assert Has(s, m) <==> m in ToMap(s);
  }

  /** An increment replies, in print, with the score the member has afterwards: its old one, or 0, and
      what was added.  No other member's score changes. */
  lemma IncrSays(s: seq<Entry>, nx: bool, args: seq<string>, x: real)
    requires WellFormed(s) && |args| == 2 && ScoreOf(args[0]) == Some(x) && !(nx && Has(s, args[1]))
    ensures var (reply, s') := IncrReply(s, nx, args);
      var sum := x + (if args[1] in ToMap(s) then ToMap(s)[args[1]] else 0.0);
      reply == Bulk(DoubleToString(sum)) && WellFormed(s') && ToMap(s') == ToMap(s)[args[1] := sum]
  {
    hide DoubleToString, ScoreOf, Insert, Remove, ScoreAt, IndexOf;
    var m := args[1];
    ScoreOnMap(s, m);
    ReplaceSpec(s, Entry(ScoreAt(s, m) + x, m));
  }

  /** ZADD keeps the set sorted and never makes it smaller; an error or a null reply leaves it as
      it was, and so does XX without INCR on an empty set. */
  lemma ZaddSafe(s: seq<Entry>, args: seq<string>)
    requires WellFormed(s) && |args| >= 4
    ensures var (reply, s') := ZaddReply(s, args);
      && WellFormed(s') && |s| <= |s'|
      && (reply.Error? || reply.Null? ==> s' == s)
      && (RequestOf(args).Add? && RequestOf(args).xx && s == [] ==> s' == [])
  {
    match RequestOf(args)
    case Invalid(_) =>
    case Increment(nx, pair) => IncrSafe(s, nx, pair);
    case Add(xx, nx, ch, pairs) =>
      if PairsOf(pairs).Some? { FoldSpec(s, xx, nx, PairsOf(pairs).value); }
  }

  lemma IncrSafe(s: seq<Entry>, nx: bool, args: seq<string>)
    requires WellFormed(s) && |args| == 2
    ensures var (reply, s') := IncrReply(s, nx, args);
      && WellFormed(s') && |s| <= |s'|
      && (reply.Error? || reply.Null? ==> s' == s)
  {
    if ScoreOf(args[0]).Some? {
      ReplaceSpec(s, Entry(ScoreAt(s, args[1]) + ScoreOf(args[0]).value, args[1]));
    }
  }
}
